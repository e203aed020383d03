# SKILLS API examples — a verified model

This project models the self-contained logic in three files of the
aidenlive/SKILLS FastAPI example collection and proves properties of it.
Nothing of the framework, the ORM or the clock is modelled; they are replaced
by plain values and parameters.

- **Request models** (`backend/api-validation/resources/pydantic-models.py`)
  - The password-strength rule, and the username, slug, phone and UUID patterns.
  - The cross-field validators: date range, password confirmation, and new
    password differing from the current one. Also the accept-terms check and
    the lower-casing validators.
  - The page count of `PaginatedResponse`.
  - The error-list formatter.
  - The upload metadata bounds.
  - The `slug_generator` pipeline.

  Modules `Validation` and `Slugs`.
- **Middleware** (`backend/fastapi-guide/resources/middleware-examples.py`)
  - The sliding-window rate limiter is a class. Its map from client to
    timestamps is updated on each request. Module `RateLimit`.
  - The authentication and maintenance gates are decision functions.
  - The validation-error body is built by a loop.

  The gates and the error body are in module `Middleware`.
- **User endpoints** (`backend/fastapi-guide/resources/endpoint-examples.py`)
  - A `UserStore` class holds a map from id to user record in place of the
    database.
  - Each handler is a method that keeps the record table consistent.
  - Create keeps emails and usernames unique.
  - Pagination, the avatar checks and the statistics counts are functions
    and lemmas.

  Module `Users`.

Module `Common` holds the shared types and helpers:

- `Option`, `Result` and `HttpError`.
- ASCII lower-casing.
- Decimal rendering of integers.
- `str.join`.
- The ceiling division used for page counts.

Regular expressions are modelled as predicates on the matched text.
`DollarMatch(s, body)` reproduces Python's `re.match(r'^…$', s)`: since `$`
also matches before one final newline, `s` is accepted when `body(s)` holds or
when `s` is `body`'s text followed by a single `"\n"`. This applies to every
pattern of `pydantic-models.py`, and lemmas such as
`Validation.PasswordTrailingNewline` show it. Character classes are ASCII: `\d`
is `0-9`, `\w` is `[A-Za-z0-9_]`, and `\s` is space, tab, `\n`, `\r`, `\v`,
`\f` and the separators `\x1c`–`\x1f`.

Timestamps are integer seconds and the current time is a parameter. A
`datetime` in the date-range check is an instant plus whether it carries a
time zone, because Python refuses to order a naive and an aware one.

Some methods are worked examples checked by assertions:
- `RateLimit.WindowFullScenario`, `RateLimit.HealthNotCountedScenario`,
  `RateLimit.UnknownClientScenario` and `RateLimit.SlidingWindowScenario`
  start from a limiter of two requests a minute that has let one client
  through twice. Then a third request within the minute is refused, the
  health check is not counted, a request without a client address counts
  separately, and at the sixtieth second the window slides.
- `Users.LifecycleScenario` creates, activates and deactivates a user.
- `Users.BatchDuplicatesScenario` stores two users with the same email,
  since `batch_create_users` does not check uniqueness. This assumes the
  database has no unique constraint on email or username. The `User` table
  is not shown, and with such a constraint the commit would fail instead.
  A later `create_user` with that email then answers 500, as
  `scalar_one_or_none()` finds two records.

## Model

| member | source | states |
|---|---|---|
| Common.ToLowerIdempotent | backend/api-validation/resources/pydantic-models.py:498-500 | Lower-casing (ASCII) a lower-cased string changes nothing. |
| Common.ToLowerAscii | backend/api-validation/resources/pydantic-models.py:498-500 | `str.lower` on ASCII: same length, and each character is lowered on its own. |
| Common.NatToStringRoundTrip | backend/fastapi-guide/resources/endpoint-examples.py:304 | The decimal text of a natural number (as `f"{user_id}"` renders it) is non-empty, all digits, has no leading zero unless it is `0`, and reads back as the number. |
| Common.IntToString | backend/fastapi-guide/resources/endpoint-examples.py:304 | `str(n)` for an integer: the decimal text, with `-` before a negative one. |
| Common.CeilDivBounds | backend/fastapi-guide/resources/endpoint-examples.py:275 | `(total + limit - 1) // limit` with a positive limit is the ceiling: `pages*limit >= total` and `(pages-1)*limit < total`. |
| Common.JoinLength | backend/api-validation/resources/pydantic-models.py:478 | `sep.join(parts)` is as long as the parts plus one separator between each neighbouring pair. |
| Common.Join | backend/api-validation/resources/pydantic-models.py:478 | `sep.join(parts)`: a single part comes back as is. |
| Common.LocStrings | backend/api-validation/resources/pydantic-models.py:478 | `str(loc)` of every location item, in order, one per item. |
| Common.LocPath | backend/api-validation/resources/pydantic-models.py:478 | The dotted location is the rendered items with one '.' between each pair: its length is their total length plus one per gap, and an empty location gives the empty string. |
| Validation.Scan | backend/api-validation/resources/pydantic-models.py:38 | One pass over a password records exactly whether some character is lower-case, upper-case, a digit or a special character, and whether all characters are allowed. |
| Validation.PasswordBodyByScan | backend/api-validation/resources/pydantic-models.py:38 | The four look-aheads and the character class of `PASSWORD_PATTERN` hold exactly when the scan says so and the length is 8–128. |
| Validation.PasswordBody | backend/api-validation/resources/pydantic-models.py:38 | The body of `PASSWORD_PATTERN`: 8–128 characters from `[A-Za-z0-9@$!%*?&]`, with at least one lower-case letter, one upper-case letter, one digit and one special character. |
| Validation.DollarMatch | backend/api-validation/resources/pydantic-models.py:52 | `re.match(r'^body$', s)`: `s` is a body, or a body followed by one final newline. |
| Validation.NewlineEndsNoPasswordBody | backend/api-validation/resources/pydantic-models.py:38 | A text ending in a newline never satisfies the password body, since `\n` is not an allowed character. |
| Validation.ValidatePassword | backend/api-validation/resources/pydantic-models.py:38-57 | `validate_password` accepts exactly the texts `re.match` lets through (body, or body plus one final newline), returns them unchanged, and otherwise fails with the source's message. |
| Validation.PasswordTrailingNewline | backend/api-validation/resources/pydantic-models.py:52 | A valid password followed by one `\n` is accepted as is; followed by two it is refused. |
| Validation.PasswordAccepted | backend/api-validation/resources/pydantic-models.py:38-57 | `Passw0rd!` is accepted unchanged. |
| Validation.PasswordRefusals | backend/api-validation/resources/pydantic-models.py:38-57 | Seven characters, no upper-case letter, or a `#` are each refused. |
| Validation.RegisterUsername | backend/api-validation/resources/pydantic-models.py:96-110 | A username passes exactly when it matches `USERNAME_PATTERN` (3–30 word characters, `$` quirk included). The stored value is the same length with every upper-case letter lowered and no upper-case left. A mismatch gives pydantic's regex message. |
| Validation.RegisterUsernameIdempotent | backend/api-validation/resources/pydantic-models.py:108-110 | Registering an already stored username gives it back unchanged. |
| Validation.UsernameBody | backend/api-validation/resources/pydantic-models.py:41 | The body of `USERNAME_PATTERN`: 3–30 characters from `[A-Za-z0-9_]`. |
| Validation.CountDigits | backend/api-validation/resources/pydantic-models.py:47 | The number of digits in a text is at most its length. |
| Validation.CountAllDigits | backend/api-validation/resources/pydantic-models.py:47 | A text of digits has as many digits as characters. |
| Validation.CountDigitsAppend | backend/api-validation/resources/pydantic-models.py:47 | Digit counts add up over concatenation. |
| Validation.PhoneBody | backend/api-validation/resources/pydantic-models.py:47 | The body of `PHONE_PATTERN`: an optional `+`, a digit 1–9, then 1 to 14 digits. |
| Validation.PhoneWithinE164 | backend/api-validation/resources/pydantic-models.py:47 | Any text matching `PHONE_PATTERN` carries 2 to 15 digits (the E.164 limit) and is at most 17 characters long. |
| Validation.PhoneExamples | backend/api-validation/resources/pydantic-models.py:47 | `+14155552671` matches; a leading zero and sixteen digits do not. |
| Validation.UuidGroups | backend/api-validation/resources/pydantic-models.py:34 | The UUID pattern holds exactly for five lower-case hex groups of 8, 4, 4, 4 and 12 joined by `-`. |
| Validation.UuidBody | backend/api-validation/resources/pydantic-models.py:34 | The body of the UUID pattern: 36 characters, `-` at positions 8, 13, 18 and 23 and a lower-case hex digit everywhere else. |
| Validation.UuidUpperCaseRefused | backend/api-validation/resources/pydantic-models.py:34 | A 36-character text with an upper-case letter anywhere never matches the pattern. |
| Validation.CheckDateRange | backend/api-validation/resources/pydantic-models.py:81-86 | `date_to` is refused exactly when both dates are present and either one is naive and the other aware (Python's `TypeError` for `<`, reported with its message) or, of the same kind, `date_to < date_from` (the source's message). Otherwise it is returned unchanged. |
| Validation.DateRangeAccepts | backend/api-validation/resources/pydantic-models.py:81-86 | Equal dates of the same kind and a missing bound are accepted; a naive and an aware date are refused even in order. |
| Validation.PasswordsMatch | backend/api-validation/resources/pydantic-models.py:116-122 | Registration and reset refuse exactly when the password differs from its confirmation (a field that failed validation counts as absent), with "Passwords do not match". |
| Validation.WeakPasswordAlsoMismatches | backend/api-validation/resources/pydantic-models.py:112-122 | A password that failed the strength check is absent from the values, so the root validator also reports a mismatch. |
| Validation.PasswordChangeCheck | backend/api-validation/resources/pydantic-models.py:162-174 | A mismatch is reported first; otherwise a new password equal to the current one is refused; otherwise the change passes. |
| Validation.MustAcceptTerms | backend/api-validation/resources/pydantic-models.py:124-128 | Passes exactly when the terms are accepted; otherwise fails with the source's message. |
| Validation.EmailLowercase | backend/api-validation/resources/pydantic-models.py:104-106 | The stored email is the input with each letter lowered, character by character: same length, no upper-case letter, and lower-casing it again changes nothing. |
| Validation.CalculatePages | backend/api-validation/resources/pydantic-models.py:418-422 | Ignores the supplied `pages`. Missing total and limit default to 0 and 20. A positive limit gives the ceiling of total/limit; a non-positive one gives 0. |
| Validation.PagesExamples | backend/api-validation/resources/pydantic-models.py:418-422 | 0, 41 and 40 rows give 0, 3 and 2 pages of 20; limit 0 gives 0 pages. |
| Validation.MimetypeBody | backend/api-validation/resources/pydantic-models.py:310 | The body of the mimetype pattern: lower-case letters, `/`, then characters from `[a-z0-9-+.]`, each side non-empty. |
| Validation.ValidFileUpload | backend/api-validation/resources/pydantic-models.py:307-311 | File metadata is valid when the name has 1–255 characters, the mimetype matches, and the size is in 1..50 MiB. |
| Validation.ValidImageUpload | backend/api-validation/resources/pydantic-models.py:314-320 | Image metadata is valid when the name has 1–255 characters, the type is one of the five image types, the size is in 1..10 MiB, and the width and height, when given, are positive. |
| Validation.ImageMimetypeIsMimetype | backend/api-validation/resources/pydantic-models.py:310-317 | Each of the five image types matches the general mimetype pattern, split after `image`. |
| Validation.ImageUploadIsFileUpload | backend/api-validation/resources/pydantic-models.py:307-320 | Valid image-upload metadata is also valid file-upload metadata. |
| Validation.FileUploadSizeBounds | backend/api-validation/resources/pydantic-models.py:311 | Exactly 50 MiB is accepted; one byte more and zero bytes are refused. |
| Validation.FormatValidationError | backend/api-validation/resources/pydantic-models.py:464-486 | One detail per error, in order, whose field is the error's location joined by `.` and whose message is the error's message; the error is "Validation failed". |
| Slugs.SlugBody | backend/api-validation/resources/pydantic-models.py:44 | The whole-text description of SLUG_PATTERN's body (non-empty, only `[a-z0-9-]`, no '-' at either end, none doubled) accepts exactly what the pattern accepts read left to right as an automaton: `[a-z0-9]+` runs joined by single '-'. |
| Slugs.RemoveDisallowed | backend/api-validation/resources/pydantic-models.py:507 | Removing `[^\w\s-]` leaves only word characters, whitespace and `-`, and never lengthens the text; `RemoveDisallowedAppend` and `RemoveKeepsAlnums` say that what it keeps stays in order. |
| Slugs.RemoveDisallowedCounts | backend/api-validation/resources/pydantic-models.py:507 | Every kept character survives the filter as often as it occurs in the input; every other character vanishes. |
| Slugs.DropSeparators | backend/api-validation/resources/pydantic-models.py:508 | The rest after a run of separators is a suffix that does not start with a separator, and everything dropped before it is a separator. |
| Slugs.TrimLeading | backend/api-validation/resources/pydantic-models.py:509 | Stripping leading `-` leaves a suffix that does not start with `-`, and only `-` characters were removed. |
| Slugs.TrimTrailing | backend/api-validation/resources/pydantic-models.py:509 | Stripping trailing `-` leaves a prefix that does not end with `-`, and only `-` characters were removed. |
| Slugs.StripDashes | backend/api-validation/resources/pydantic-models.py:509 | `strip('-')` is the leading strip followed by the trailing strip (see the two rows above). |
| Slugs.CollapseSeparators | backend/api-validation/resources/pydantic-models.py:508 | `re.sub(r'[\s_-]+', '-', ...)`: each maximal run of separators becomes one `-`; its properties are `CollapseShape`, `CollapseKeepsSlugShape` and `CollapseKeepsAlnums`. |
| Slugs.SlugGenerator | backend/api-validation/resources/pydantic-models.py:503-510 | `slug_generator` as the composition of the four steps; its properties are `SlugGeneratorShape`, `SlugGeneratorMatchesPattern`, `SlugGeneratorIdempotent` and `SlugGeneratorAlnums`. |
| Slugs.RemoveKeepsLower | backend/api-validation/resources/pydantic-models.py:506-507 | Filtering lower-cased text keeps it lower-case. |
| Slugs.LoweredKept | backend/api-validation/resources/pydantic-models.py:506-507 | After the first two steps every character is a lower-case kept character. |
| Slugs.CollapseShape | backend/api-validation/resources/pydantic-models.py:508 | Collapsing `[\s_-]+` to `-` leaves only `[a-z0-9-]`, never two `-` in a row, and a leading `-` exactly when the input starts with a separator. |
| Slugs.SliceKeepsShape | backend/api-validation/resources/pydantic-models.py:509 | A slice of text made of slug characters without a double dash keeps both properties. |
| Slugs.StripShape | backend/api-validation/resources/pydantic-models.py:509 | After `strip('-')` such text is empty or a well-formed slug. |
| Slugs.SlugGeneratorShape | backend/api-validation/resources/pydantic-models.py:503-510 | The generated slug is empty or a non-empty run of `[a-z0-9]` groups joined by single `-`, with no `-` at either end. |
| Slugs.SlugGeneratorMatchesPattern | backend/api-validation/resources/pydantic-models.py:44 | A non-empty generated slug matches `SLUG_PATTERN`. |
| Slugs.RemoveKeepsKept | backend/api-validation/resources/pydantic-models.py:507 | Text made only of kept characters passes the filter unchanged. |
| Slugs.CollapseKeepsSlugShape | backend/api-validation/resources/pydantic-models.py:508 | Collapsing changes nothing in slug-shaped text. |
| Slugs.SlugIsFixedPoint | backend/api-validation/resources/pydantic-models.py:503-510 | A well-formed slug is its own slug. |
| Slugs.SlugGeneratorIdempotent | backend/api-validation/resources/pydantic-models.py:503-510 | Generating a slug from a slug changes nothing. |
| Slugs.RemoveDisallowedAppend | backend/api-validation/resources/pydantic-models.py:507 | The filter works on each part of a text on its own, so the characters it keeps stay in their input order. |
| Slugs.RemoveKeepsAlnums | backend/api-validation/resources/pydantic-models.py:507 | The filter keeps every letter and digit `[a-z0-9]`, in order. |
| Slugs.CollapseKeepsAlnums | backend/api-validation/resources/pydantic-models.py:508 | Collapsing separator runs keeps every letter and digit between them, in order. |
| Slugs.StripKeepsAlnums | backend/api-validation/resources/pydantic-models.py:509 | `strip('-')` keeps every letter and digit, in order. |
| Slugs.SlugGeneratorAlnums | backend/api-validation/resources/pydantic-models.py:503-510 | The slug's letters and digits are exactly those of the lower-cased title, in the same order: none is lost, reordered or added. |
| Slugs.LowerExample | backend/api-validation/resources/pydantic-models.py:506 | `"Hi, Bo!"` lower-cases to `"hi, bo!"`. |
| Slugs.RemoveExample | backend/api-validation/resources/pydantic-models.py:507 | `"hi, bo!"` filters to `"hi bo"`. |
| Slugs.CollapseExample | backend/api-validation/resources/pydantic-models.py:508 | `"hi bo"` collapses to `"hi-bo"`. |
| Slugs.SlugExample | backend/api-validation/resources/pydantic-models.py:503-510 | The title `"Hi, Bo!"` becomes the slug `"hi-bo"`. |
| RateLimit.Prune | backend/fastapi-guide/resources/middleware-examples.py:109-114 | Pruning never lengthens the client's list. |
| RateLimit.PruneCount | backend/fastapi-guide/resources/middleware-examples.py:109-117 | Each fresh timestamp survives pruning as often as it was recorded (requests in the same second each count against the limit); each expired one is dropped. |
| RateLimit.PruneMembers | backend/fastapi-guide/resources/middleware-examples.py:109-114 | A timestamp survives pruning exactly when it was recorded and is strictly newer than a minute ago; one exactly 60 s old is dropped. |
| RateLimit.PruneSortedIsSuffix | backend/fastapi-guide/resources/middleware-examples.py:111-114 | On a list in arrival order, pruning drops a prefix made only of expired entries: the result is the newest entries, in their order. |
| RateLimit.PruneSortedExpiredPrefix | backend/fastapi-guide/resources/middleware-examples.py:111-114 | On a list in arrival order, every entry pruning drops is at least a minute old. |
| RateLimit.PruneAppend | backend/fastapi-guide/resources/middleware-examples.py:111-114 | Pruning a concatenation prunes each part and keeps the parts in order, for any list, in order or not: the comprehension keeps the surviving entries in their relative order. |
| RateLimit.PruneKeepsAll | backend/fastapi-guide/resources/middleware-examples.py:111-114 | A list with no expired entry is kept whole. |
| RateLimit.PruneTwice | backend/fastapi-guide/resources/middleware-examples.py:109-114 | Pruning at one instant and again at a later one is pruning once at the later one. |
| RateLimit.PruneSorted | backend/fastapi-guide/resources/middleware-examples.py:111-114 | A pruned list in arrival order stays in order. |
| RateLimit.PruneInOrder | backend/fastapi-guide/resources/middleware-examples.py:111-127 | A list in arrival order with no entry after `now` stays so once pruned, and also once `now` is appended to it. |
| RateLimit.ClientKey | backend/fastapi-guide/resources/middleware-examples.py:106 | The client's host, or `"unknown"` without client information. |
| RateLimit.RateLimiter.constructor | backend/fastapi-guide/resources/middleware-examples.py:95-98 | The limit defaults to 60 per minute and the table starts empty. |
| RateLimit.RateLimiter.Dispatch | backend/fastapi-guide/resources/middleware-examples.py:100-129 | `/health` passes and the table is untouched. Any other request prunes the caller's list (key "unknown" without client information). It is refused with 429 and "Maximum N requests per minute" when the pruned list holds the limit, and otherwise `now` is appended and it passes. Only the caller's entry changes. No list exceeds the limit, and with a clock that never goes back every list stays in order. |
| RateLimit.LimitExceeded | backend/fastapi-guide/resources/middleware-examples.py:117-124 | The refusal is 429 "Rate limit exceeded" with the detail "Maximum N requests per minute"; for a non-negative limit the number N reads back as the limit. |
| Middleware.Split | backend/fastapi-guide/resources/middleware-examples.py:156 | `str.split(sep)` yields at least one field and no field contains the separator. |
| Middleware.SplitJoin | backend/fastapi-guide/resources/middleware-examples.py:156 | Joining the fields with the separator gives back the text. |
| Middleware.JoinSplit | backend/fastapi-guide/resources/middleware-examples.py:224 | Splitting a join of parts that hold no separator gives back the parts, the converse of `SplitJoin`. |
| Middleware.SplitFields | backend/fastapi-guide/resources/middleware-examples.py:156 | The first field is the text before the first separator; the second is the text between the first and the next. |
| Middleware.IsPublicPath | backend/fastapi-guide/resources/middleware-examples.py:141-143 | A path is public when one of the six public paths is a prefix of it. |
| Middleware.BearerToken | backend/fastapi-guide/resources/middleware-examples.py:156 | `auth_header.split(" ")[1]` for a header that starts with `Bearer `; `BearerTokenIsSecondField` says what that is. |
| Middleware.Authenticate | backend/fastapi-guide/resources/middleware-examples.py:139-170 | A public-prefix path passes unchecked. Otherwise a missing header, or one without the `Bearer ` prefix, gets 401 "Authentication required" with `WWW-Authenticate: Bearer`. Otherwise the second field of the header goes to the verifier; its user id authenticates the request and its failure gets 401 "Invalid or expired token". |
| Middleware.BearerTokenIsSecondField | backend/fastapi-guide/resources/middleware-examples.py:156 | The token is what follows `Bearer ` up to the next space. |
| Middleware.BearerTokenRoundTrip | backend/fastapi-guide/resources/middleware-examples.py:156 | A token without spaces comes back unchanged. |
| Middleware.BearerTokenStopsAtSpace | backend/fastapi-guide/resources/middleware-examples.py:156 | `"Bearer a b"` yields `"a"`. |
| Middleware.BearerTokenAfterDoubleSpace | backend/fastapi-guide/resources/middleware-examples.py:156 | `"Bearer  x"` yields the empty token. |
| Middleware.PublicPrefixExamples | backend/fastapi-guide/resources/middleware-examples.py:141-143 | The public check is a prefix test, so `/healthz` and `/docs/x` are public. |
| Middleware.ApiPathNotPublic | backend/fastapi-guide/resources/middleware-examples.py:141-143 | `/api/users` is not public. |
| Middleware.MaintenanceGate | backend/fastapi-guide/resources/middleware-examples.py:270-286 | `/health` always passes. Any other path gets 503 "Service under maintenance" exactly when maintenance mode is on, with the configured message, or "We'll be back soon!" when that is unset or empty. |
| Middleware.ValidationExceptionHandler | backend/fastapi-guide/resources/middleware-examples.py:219-236 | Status 400 and "Validation failed", with one entry per error in order: the dotted location, the message and the type. |
| Middleware.LocPathExample | backend/fastapi-guide/resources/middleware-examples.py:224 | The location `users, 2, email` renders as `users.2.email`. |
| Middleware.LocPathFields | backend/fastapi-guide/resources/middleware-examples.py:224 | When no field name holds a '.', splitting the dotted location on '.' gives back the rendered items, one per location entry; integer indices never hold a '.'. |
| Users.GetCurrentAdmin | backend/fastapi-guide/resources/endpoint-examples.py:119-128 | Passes the caller exactly when the role is admin; otherwise 403 "Admin access required". |
| Users.AdminGateRefusesOthers | backend/fastapi-guide/resources/endpoint-examples.py:119-128 | Users and moderators both get 403. |
| Users.CanModify | backend/fastapi-guide/resources/endpoint-examples.py:347 | The owner-or-admin rule: the caller is the user or has the admin role. |
| Users.ListUsersPage | backend/fastapi-guide/resources/endpoint-examples.py:263-275 | Accepted exactly when `page >= 1` and `1 <= limit <= 100` (otherwise 422). The offset is `(page-1)*limit` and the page count is the ceiling of total/limit. |
| Users.PagesUpToPrefix | backend/fastapi-guide/resources/endpoint-examples.py:263-264 | Pages 1 to n, read in order, are the first `n*limit` rows. |
| Users.PagesPartitionRows | backend/fastapi-guide/resources/endpoint-examples.py:263-275 | All the pages, read in order, are exactly the rows: each row is on one page, in its order. |
| Users.PageOfRow | backend/fastapi-guide/resources/endpoint-examples.py:263 | Row `i` lies in the window of page `p` exactly when `p = i // limit + 1`, so the windows are disjoint. |
| Users.CheckAvatar | backend/fastapi-guide/resources/endpoint-examples.py:479-500 | Checks in order: owner-or-admin (403), then content type in jpeg/png/webp (400, the message listing them), then size at most 5 MiB (400). Each error holds exactly when the earlier checks pass and its own fails. |
| Users.AvatarSizeBoundary | backend/fastapi-guide/resources/endpoint-examples.py:496 | Exactly 5 MiB is accepted; one byte more is refused. |
| Users.AvatarUrl | backend/fastapi-guide/resources/endpoint-examples.py:504 | The URL is the storage prefix, the user id, a '/' and then the file name. |
| Users.AvatarUrlInjective | backend/fastapi-guide/resources/endpoint-examples.py:504 | Two uploads get the same URL only for the same user id and the same file name, because the rendered id holds no '/'. |
| Users.AvatarBadTypeMessage | backend/fastapi-guide/resources/endpoint-examples.py:487-491 | The type error lists the allowed types joined by `, `. |
| Users.SetAllSupplied | backend/fastapi-guide/resources/endpoint-examples.py:354-356 | The `setattr` loop over the fields the client set gives the record in which exactly those fields take their new values. |
| Users.SuppliedFields | backend/fastapi-guide/resources/endpoint-examples.py:354 | `exclude_unset`: a field is listed exactly when the client set it, with the value it set (an explicit null bio included), each field at most once and in declaration order. |
| Users.SetAllAppend | backend/fastapi-guide/resources/endpoint-examples.py:355-356 | Setting two runs of fields is setting the first run, then the second. |
| Users.PatchedLaws | backend/fastapi-guide/resources/endpoint-examples.py:354-356 | An update that sets nothing changes nothing, and applying an update twice is applying it once. |
| Users.ActivePartition | backend/fastapi-guide/resources/endpoint-examples.py:602-627 | `total - active` is the number of inactive users. |
| Users.RolePartition | backend/fastapi-guide/resources/endpoint-examples.py:610-615 | The per-role counts add up to the total. |
| Users.NewRecord | backend/fastapi-guide/resources/endpoint-examples.py:205-211 | The new record has the given id, the request's email, username and names, and the password only as its hash. Created and updated times are the given time. The other fields take the table defaults this model assumes: role user, active, no bio, no avatar. |
| Users.UserStore.constructor | backend/fastapi-guide/resources/endpoint-examples.py:92-106 | The store starts empty, with every record under its own id and emails and usernames unique. |
| Users.UserStore.CreateUser | backend/fastapi-guide/resources/endpoint-examples.py:181-217 | The email query comes first. Two or more records with the email make `scalar_one_or_none()` raise, answered with 500 "Internal server error"; one such record gives 409 "Email already registered". The username query follows in the same way: 500 for two or more matches, 409 "Username already taken" for one. Otherwise exactly one record is added under a fresh id, with the hashed password, and the next id is one higher. A refused create leaves the store and the next id alone. On a store without duplicates only the 409s occur, and email and username uniqueness is preserved. |
| Users.UserStore.GetUser | backend/fastapi-guide/resources/endpoint-examples.py:296-307 | The stored record, or 404 "User with ID n not found" exactly when the id is absent. |
| Users.UserStore.UpdateUser | backend/fastapi-guide/resources/endpoint-examples.py:335-363 | 404 for a missing id comes before the permission check. Then 403 "You can only update your own profile" unless the caller is the user or an admin. Then the record's supplied fields are set and `updated_at` is stamped. Nothing else in it and no other user changes. |
| Users.UserStore.DeleteUser | backend/fastapi-guide/resources/endpoint-examples.py:372-398 | Admins only (403), 404 for a missing id; otherwise exactly that record is removed. |
| Users.UserStore.BatchCreateUsers | backend/fastapi-guide/resources/endpoint-examples.py:412-450 | Admins only (403). More than 100 entries gives 400 "Maximum 100 users per batch", and 100 are accepted. Otherwise one record per entry is added under consecutive fresh ids, in order, and returned in that order. Existing records are untouched. |
| Users.UserStore.UploadAvatar | backend/fastapi-guide/resources/endpoint-examples.py:465-516 | A failing check gives that check's error and changes nothing. Otherwise the URL `https://storage.example.com/avatars/{id}/{filename}` is returned and stored on the user if the user exists. A missing user is not an error. |
| Users.UserStore.ActivateUser | backend/fastapi-guide/resources/endpoint-examples.py:529-552 | Admins only (403), 404 for a missing id; otherwise `is_active` becomes true and `updated_at` is stamped, and nothing else changes. |
| Users.UserStore.DeactivateUser | backend/fastapi-guide/resources/endpoint-examples.py:561-584 | As activation, with `is_active` false. |
| Users.UserStore.GetUserStats | backend/fastapi-guide/resources/endpoint-examples.py:596-630 | Admins only (403). Reports the total, the active count, `inactive = total - active` (which is the number of inactive users), a count for each of the three roles (summing to the total), and the users created in the last seven days. |

## Left out

- Unicode: `str.lower`, `\w`, `\s` and `\d` are modelled on ASCII only; Python applies them to all of Unicode.
- `EmailStr` and `HttpUrl` validation, and pydantic's own coercion and the
  field constraints of the request models (lengths and ranges answered with
  422), are library behaviour. Only the constraints listed above are modelled.
  Path parameters below 1 therefore reach the store as ids no record has.
- JWT decoding in `verify_token`, `get_password_hash` and the placeholder
  `get_current_user` are foreign calls. They appear as parameters: the
  verifier returns `None` where the source raises.
- The database session (`get_db`), commit, refresh and rollback, and
  SQLAlchemy query building, including the `ilike` search and the role filter
  of `list_users`. The store is a map; a new record's id is the next integer.
  The `User` model's defaults are not shown, so the model assumes them: role
  user, active, no bio, no avatar.
  Unique constraints on email or username are not shown either, so none is
  assumed: a batch with a repeated email is stored, where such a constraint
  would make the commit fail.
- Users.UserStore.UpdateUser: an explicit `null` for `first_name` or
  `last_name` is not modelled (only `bio` can be set to null). Timestamps are
  whole seconds rather than `datetime` values.
- RateLimit.RateLimiter.Dispatch: timestamps are whole seconds, and requests
  are handled one at a time. Concurrent async requests sharing the dictionary
  are not modelled.
- `datetime.utcnow().isoformat()` in the validation handler is a `timestamp`
  parameter.
- Floating-point timing: the `Server-Timing` header, `health_check` uptime and
  the request-logging and timing middleware. These are floats and I/O.
- `SecurityHeadersMiddleware`'s constant headers, CORS and GZip registration,
  and `setup_middleware`. These are framework registration.
- `generic_exception_handler` in debug mode, which answers with `str(exc)`. The model uses only its production answer, 500 "Internal server error", for the lookup in `create_user` that finds two records.
- The example-usage blocks at the ends of the request-model and middleware
  files.
- `upload_avatar` reads the file only to measure it. The model takes the size
  as a number and does not store the file.
