/** The user endpoints of backend/fastapi-guide/resources/endpoint-examples.py
    over an in-memory table from id to user record in place of the database.

    The authenticated caller (`get_current_user`), the password hasher
    (`get_password_hash`) and the clock are arguments. The ORM's `User` table
    is not part of this model: a new record gets the next integer id, the role
    `User`, `isActive` true, no bio and no avatar. */
module Users {
  import opened Common

  datatype Role = User | Moderator | Admin

  const AllRoles: seq<Role> := [User, Moderator, Admin]

  datatype UserRecord = UserRecord(
    id: int, email: string, username: string, hashedPassword: string,
    firstName: string, lastName: string, bio: Option<string>,
    role: Role, isActive: bool, avatarUrl: Option<string>,
    createdAt: int, updatedAt: int)

  /** The `UserCreate` request body. */
  datatype UserCreate = UserCreate(email: string, username: string, password: string,
                                   firstName: string, lastName: string)

  /** The `UserUpdate` request body; `None` is a field the client did not set,
      so `bio: Some(None)` is an explicit null. */
  datatype UserUpdate = UserUpdate(firstName: Option<string>, lastName: Option<string>,
                                   bio: Option<Option<string>>)

  /** The record `create_user` and `batch_create_users` build: the request's
      identity fields, the password only as its hash, and the table's defaults
      (a plain active user without bio or avatar, created and updated now). */
  function NewRecord(id: int, data: UserCreate, hash: string -> string, now: int): (r: UserRecord)
    ensures r.id == id && r.createdAt == now && r.updatedAt == now
    ensures r.email == data.email && r.username == data.username
    ensures r.firstName == data.firstName && r.lastName == data.lastName
    ensures r.hashedPassword == hash(data.password)
    ensures r.role == User && r.isActive && r.bio == None && r.avatarUrl == None
  {
    UserRecord(id, data.email, data.username, hash(data.password), data.firstName, data.lastName,
               None, User, true, None, now, now)
  }

  function NotFound(userId: int): HttpError
  {
    HttpError(404, "User with ID " + IntToString(userId) + " not found")
  }

  // ---------------------------------------------------------------------
  // Permission rules
  // ---------------------------------------------------------------------

  /** `get_current_admin`: only an administrator passes, returning the caller;
      users and moderators get 403. */
  function GetCurrentAdmin(caller: UserRecord): (r: Result<UserRecord, HttpError>)
    ensures r.Ok? <==> caller.role == Admin
    ensures r.Ok? ==> r.value == caller
    ensures r.Err? ==> r.error == HttpError(403, "Admin access required")
  {
    if caller.role != Admin then Err(HttpError(403, "Admin access required")) else Ok(caller)
  }

  /** The owner-or-admin rule of `update_user` and `upload_avatar`. */
  predicate CanModify(caller: UserRecord, userId: int)
  {
    caller.id == userId || caller.role == Admin
  }

  lemma AdminGateRefusesOthers(caller: UserRecord)
    requires caller.role == User || caller.role == Moderator
    ensures GetCurrentAdmin(caller) == Err(HttpError(403, "Admin access required"))
  {
  }

  // ---------------------------------------------------------------------
  // list_users: pagination arithmetic
  // ---------------------------------------------------------------------

  datatype PageInfo = PageInfo(offset: int, pages: int)

  /** The pagination of `list_users`: the query parameters must satisfy
      `page >= 1` and `1 <= limit <= 100` (else the framework answers 422); the
      offset is `(page - 1) * limit` and the page count the ceiling of
      total/limit. */
  function ListUsersPage(total: nat, page: int, limit: int): (r: Result<PageInfo, HttpError>)
    ensures r.Ok? <==> page >= 1 && 1 <= limit <= 100
    ensures r.Err? ==> r.error.status == 422
    ensures r.Ok? ==> r.value.offset == (page - 1) * limit && r.value.offset >= 0
    ensures r.Ok? ==> (r.value.pages >= 0 && r.value.pages * limit >= total && (r.value.pages - 1) * limit < total)
  {
    if page < 1 || limit < 1 || limit > 100 then Err(HttpError(422, "Unprocessable Entity"))
    else
      CeilDivBounds(total, limit);
      assert (total + limit - 1) / limit >= 0;
      Ok(PageInfo((page - 1) * limit, CeilDiv(total, limit)))
  }

  function Min(a: int, b: int): int { if a <= b then a else b }

  /** `query.offset(offset).limit(limit)` over the ordered result rows. */
  function PageItems<T>(items: seq<T>, offset: nat, limit: nat): seq<T>
  {
    items[Min(offset, |items|)..Min(offset + limit, |items|)]
  }

  /** The rows of pages 1..n one after the other. */
  function PagesUpTo<T>(items: seq<T>, limit: nat, n: nat): seq<T>
  {
    if n == 0 then [] else PagesUpTo(items, limit, n - 1) + PageItems(items, (n - 1) * limit, limit)
  }

  lemma {:induction false} PagesUpToPrefix<T>(items: seq<T>, limit: nat, n: nat)
    ensures PagesUpTo(items, limit, n) == items[..Min(n * limit, |items|)]
  {
    if n > 0 {
      PagesUpToPrefix(items, limit, n - 1);
      var a, b := Min((n - 1) * limit, |items|), Min(n * limit, |items|);
      assert (n - 1) * limit + limit == n * limit;
      assert items[..a] + items[a..b] == items[..b];
    }
  }

  /** The pages 1..pages of `list_users`, read in order, are exactly the rows:
      every row is on a page, none is on two, and the order is kept. */
  lemma PagesPartitionRows<T>(items: seq<T>, limit: int)
    requires 1 <= limit <= 100
    ensures ListUsersPage(|items|, 1, limit).Ok?
    ensures PagesUpTo(items, limit, ListUsersPage(|items|, 1, limit).value.pages) == items
  {
    var pages := ListUsersPage(|items|, 1, limit).value.pages;
    PagesUpToPrefix(items, limit, pages);
  }

  /** Row `i` is on page `i / limit + 1` and on no other. */
  lemma PageOfRow(i: nat, limit: int, page: int)
    requires 1 <= limit && page >= 1
    ensures (page - 1) * limit <= i < page * limit <==> page == i / limit + 1
  {
    var q := i / limit;
    assert q * limit <= i < q * limit + limit;
    if page <= q {
      MulMonotone(page, q, limit);
    } else if page >= q + 2 {
      MulMonotone(q + 1, page - 1, limit);
    } else {
      assert page - 1 == q;
    }
  }

  lemma MulMonotone(a: int, b: int, c: int)
    requires a <= b && c >= 0
    ensures a * c <= b * c
  {
    assert b * c - a * c == (b - a) * c;
  }

  // ---------------------------------------------------------------------
  // upload_avatar: the checks
  // ---------------------------------------------------------------------

  /** What `generic_exception_handler` answers for an unhandled exception
      outside debug mode. */
  const InternalError := HttpError(500, "Internal server error")

  const AvatarTypes: seq<string> := ["image/jpeg", "image/png", "image/webp"]
  const AvatarMaxBytes := 5 * 1024 * 1024

  const AvatarForbidden := HttpError(403, "You can only update your own avatar")
  const AvatarBadType := HttpError(400, "Invalid file type. Allowed: image/jpeg, image/png, image/webp")
  const AvatarTooLarge := HttpError(400, "File size exceeds 5MB limit")

  /** The checks of `upload_avatar`, in order: permission, content type, size. */
  function CheckAvatar(caller: UserRecord, userId: int, contentType: Option<string>, size: nat)
    : (r: Result<(), HttpError>)
    ensures r.Ok? <==>
              CanModify(caller, userId) && contentType.Some? && contentType.value in AvatarTypes
              && size <= AvatarMaxBytes
    ensures r == Err(AvatarForbidden) <==> !CanModify(caller, userId)
    ensures r == Err(AvatarBadType) <==>
              CanModify(caller, userId) && (contentType.None? || contentType.value !in AvatarTypes)
    ensures r == Err(AvatarTooLarge) <==>
              CanModify(caller, userId) && contentType.Some? && contentType.value in AvatarTypes
              && size > AvatarMaxBytes
  {
    if !CanModify(caller, userId) then Err(AvatarForbidden)
    else if contentType.None? || contentType.value !in AvatarTypes then Err(AvatarBadType)
    else if size > AvatarMaxBytes then Err(AvatarTooLarge)
    else Ok(())
  }

  /** The size bound is inclusive: exactly 5 MiB is accepted. */
  lemma AvatarSizeBoundary(caller: UserRecord)
    ensures CheckAvatar(caller, caller.id, Some("image/png"), 5 * 1024 * 1024).Ok?
    ensures CheckAvatar(caller, caller.id, Some("image/png"), 5 * 1024 * 1024 + 1) == Err(AvatarTooLarge)
  {
  }

  /** The error message lists the allowed types joined by ", ". */
  lemma AvatarBadTypeMessage()
    ensures AvatarBadType.detail == "Invalid file type. Allowed: " + Join(AvatarTypes, ", ")
  {
    var tail := ["image/png", "image/webp"];
    assert AvatarTypes == ["image/jpeg"] + tail && tail[1..] == ["image/webp"];
    assert Join(tail, ", ") == "image/png" + ", " + "image/webp";
  }

  const AvatarBase := "https://storage.example.com/avatars/"

  /** `f"https://storage.example.com/avatars/{user_id}/{file.filename}"`: the
      storage prefix, the user's id, '/', then the file name. */
  function AvatarUrl(userId: int, filename: string): (url: string)
    ensures |url| > |AvatarBase| + |filename| + 1
    ensures url[..|AvatarBase|] == AvatarBase
    ensures url[|url| - |filename| - 1] == '/' && url[|url| - |filename|..] == filename
  {
    IntToStringChars(userId);
    AvatarBase + IntToString(userId) + "/" + filename
  }

  /** No two uploads share a URL: the URL determines both the user and the
      file name, because the rendered id holds no '/'. */
  lemma AvatarUrlInjective(a: int, f: string, b: int, g: string)
    requires AvatarUrl(a, f) == AvatarUrl(b, g)
    ensures a == b && f == g
  {
    var u := AvatarUrl(a, f);
    var sa, sb := IntToString(a), IntToString(b);
    var n := |AvatarBase|;
    IntToStringChars(a);
    IntToStringChars(b);
    assert u == AvatarBase + sa + "/" + f == AvatarBase + sb + "/" + g;
    assert sa == u[n..n + |sa|] == sb;
    IntToStringInjective(a, b);
    assert f == u[n + |sa| + 1..] == g;
  }

  // ---------------------------------------------------------------------
  // update_user: setting the supplied fields
  // ---------------------------------------------------------------------

  datatype FieldValue = FirstName(s: string) | LastName(s: string) | Bio(b: Option<string>)

  /** Position of a field in the declaration of `UserUpdate`. */
  function FieldRank(f: FieldValue): nat
  {
    match f
    case FirstName(_) => 0
    case LastName(_) => 1
    case Bio(_) => 2
  }

  /** `user_data.dict(exclude_unset=True).items()`: a field is listed exactly
      when the client set it, with the value it set (an explicit null bio
      included), each field once and in declaration order. */
  function SuppliedFields(d: UserUpdate): (r: seq<FieldValue>)
    ensures forall x :: FirstName(x) in r <==> d.firstName == Some(x)
    ensures forall x :: LastName(x) in r <==> d.lastName == Some(x)
    ensures forall b :: Bio(b) in r <==> d.bio == Some(b)
    ensures forall i, j :: 0 <= i < j < |r| ==> FieldRank(r[i]) < FieldRank(r[j])
  {
    (if d.firstName.Some? then [FirstName(d.firstName.value)] else [])
    + (if d.lastName.Some? then [LastName(d.lastName.value)] else [])
    + (if d.bio.Some? then [Bio(d.bio.value)] else [])
  }

  /** `setattr(user, field, value)` */
  function SetAttr(u: UserRecord, f: FieldValue): UserRecord
  {
    match f
    case FirstName(s) => u.(firstName := s)
    case LastName(s) => u.(lastName := s)
    case Bio(b) => u.(bio := b)
  }

  function SetAll(u: UserRecord, fs: seq<FieldValue>): UserRecord
    decreases |fs|
  {
    if fs == [] then u else SetAll(SetAttr(u, fs[0]), fs[1..])
  }

  /** What an update means: each supplied field takes its new value, every
      other field keeps its old one. */
  function Patched(u: UserRecord, d: UserUpdate): UserRecord
  {
    u.(firstName := if d.firstName.Some? then d.firstName.value else u.firstName,
       lastName := if d.lastName.Some? then d.lastName.value else u.lastName,
       bio := if d.bio.Some? then d.bio.value else u.bio)
  }

  /** The `setattr` loop over the supplied fields performs exactly `Patched`. */
  lemma SetAllSupplied(u: UserRecord, d: UserUpdate)
    ensures SetAll(u, SuppliedFields(d)) == Patched(u, d)
  {
    var fs := SuppliedFields(d);
    var a := if d.firstName.Some? then [FirstName(d.firstName.value)] else [];
    var b := if d.lastName.Some? then [LastName(d.lastName.value)] else [];
    var c := if d.bio.Some? then [Bio(d.bio.value)] else [];
    SetAllAppend(u, a, b + c);
    SetAllAppend(SetAll(u, a), b, c);
    assert fs == a + (b + c);
  }

  lemma {:induction false} SetAllAppend(u: UserRecord, xs: seq<FieldValue>, ys: seq<FieldValue>)
    ensures SetAll(u, xs + ys) == SetAll(SetAll(u, xs), ys)
    decreases |xs|
  {
    if xs != [] {
      assert (xs + ys)[0] == xs[0] && (xs + ys)[1..] == xs[1..] + ys;
      SetAllAppend(SetAttr(u, xs[0]), xs[1..], ys);
    } else {
      assert xs + ys == ys;
    }
  }

  /** An update that sets nothing changes nothing, and applying the same
      update twice is applying it once. */
  lemma PatchedLaws(u: UserRecord, d: UserUpdate)
    ensures Patched(u, UserUpdate(None, None, None)) == u
    ensures Patched(Patched(u, d), d) == Patched(u, d)
  {
  }

  // ---------------------------------------------------------------------
  // get_user_stats: counting
  // ---------------------------------------------------------------------

  datatype UserStats = UserStats(total: int, active: int, inactive: int,
                                 byRole: map<Role, int>, recentSignups: int)

  const WeekSeconds := 7 * 24 * 60 * 60

  function ActiveIds(m: map<int, UserRecord>): set<int>
  {
    set id | id in m && m[id].isActive
  }

  function InactiveIds(m: map<int, UserRecord>): set<int>
  {
    set id | id in m && !m[id].isActive
  }

  function RoleIds(m: map<int, UserRecord>, role: Role): set<int>
  {
    set id | id in m && m[id].role == role
  }

  function RecentIds(m: map<int, UserRecord>, since: int): set<int>
  {
    set id | id in m && m[id].createdAt >= since
  }

  /** Every user is active or inactive, so `total - active` counts the inactive ones. */
  lemma ActivePartition(m: map<int, UserRecord>)
    ensures |m| - |ActiveIds(m)| == |InactiveIds(m)|
  {
    var a, b := ActiveIds(m), InactiveIds(m);
    assert a + b == m.Keys;
    assert a * b == {};
    assert |a + b| == |a| + |b|;
  }

  /** Every user has exactly one of the three roles. */
  lemma RolePartition(m: map<int, UserRecord>)
    ensures |RoleIds(m, User)| + |RoleIds(m, Moderator)| + |RoleIds(m, Admin)| == |m|
  {
    var u, o, a := RoleIds(m, User), RoleIds(m, Moderator), RoleIds(m, Admin);
    assert u * o == {} && (u + o) * a == {};
    assert |u + o| == |u| + |o|;
    assert |(u + o) + a| == |u + o| + |a|;
    forall id | id in m ensures id in u + o + a {
      match m[id].role
      case User => assert id in u;
      case Moderator => assert id in o;
      case Admin => assert id in a;
    }
    assert u + o + a == m.Keys;
  }

  // ---------------------------------------------------------------------
  // The store
  // ---------------------------------------------------------------------

  class UserStore {
    var users: map<int, UserRecord>
    /** The id the database hands out next. */
    var nextId: int

    /** Every record is filed under its own id, below `nextId`. */
    ghost predicate Valid()
      reads this
    {
      nextId >= 1 && forall id :: id in users ==> users[id].id == id && 1 <= id < nextId
    }

    /** No two users share an email address or a username. */
    ghost predicate Unique()
      reads this
    {
      forall a, b :: a in users && b in users && a != b ==>
        users[a].email != users[b].email && users[a].username != users[b].username
    }

    predicate EmailTaken(email: string)
      reads this
    {
      exists id | id in users :: users[id].email == email
    }

    predicate UsernameTaken(username: string)
      reads this
    {
      exists id | id in users :: users[id].username == username
    }

    /** Two or more records hold `email`: `scalar_one_or_none()` on the email
        query then raises instead of returning one of them. */
    predicate EmailShared(email: string)
      reads this
    {
      exists a, b | a in users && b in users :: a != b && users[a].email == email && users[b].email == email
    }

    /** Two or more records hold `username`. */
    predicate UsernameShared(username: string)
      reads this
    {
      exists a, b | a in users && b in users :: a != b && users[a].username == username && users[b].username == username
    }

    constructor ()
      ensures users == map[] && nextId == 1
      ensures Valid() && Unique()
    {
      users := map[];
      nextId := 1;
    }

    /** `create_user`: the email query first, then the username query. Each
        `scalar_one_or_none()` raises when two or more records match, which
        the generic handler answers with 500; one match gives 409 "Email
        already registered" or "Username already taken". Otherwise exactly
        one record is added. On a store without duplicates only the 409s
        occur, and uniqueness of emails and usernames is preserved. */
    method CreateUser(data: UserCreate, hash: string -> string, now: int)
      returns (r: Result<UserRecord, HttpError>)
      requires Valid()
      modifies this
      ensures Valid()
      ensures old(EmailShared(data.email)) ==> r == Err(InternalError) && users == old(users)
      ensures !old(EmailShared(data.email)) && old(EmailTaken(data.email)) ==>
                r == Err(HttpError(409, "Email already registered")) && users == old(users)
      ensures !old(EmailTaken(data.email)) && old(UsernameShared(data.username)) ==>
                r == Err(InternalError) && users == old(users)
      ensures !old(EmailTaken(data.email)) && !old(UsernameShared(data.username)) && old(UsernameTaken(data.username)) ==>
                r == Err(HttpError(409, "Username already taken")) && users == old(users)
      ensures !old(EmailTaken(data.email)) && !old(UsernameTaken(data.username)) ==>
                && r == Ok(NewRecord(old(nextId), data, hash, now))
                && old(nextId) !in old(users)
                && users == old(users)[old(nextId) := r.value]
                && |users| == |old(users)| + 1
                && nextId == old(nextId) + 1
      ensures r.Err? ==> nextId == old(nextId)
      ensures old(Unique()) ==> Unique() && (r.Err? ==> r.error.status == 409)
    {
      if EmailShared(data.email) {
        return Err(InternalError);
      }
      if EmailTaken(data.email) {
        return Err(HttpError(409, "Email already registered"));
      }
      if UsernameShared(data.username) {
        return Err(InternalError);
      }
      if UsernameTaken(data.username) {
        return Err(HttpError(409, "Username already taken"));
      }
      var user := NewRecord(nextId, data, hash, now);
      assert nextId !in users;
      ghost var before := users;
      users := users[nextId := user];
      nextId := nextId + 1;
      r := Ok(user);
      assert forall id :: id in before ==> before[id].email != user.email && before[id].username != user.username;
    }

    /** `get_user`: the record, or 404. */
    function GetUser(userId: int): (r: Result<UserRecord, HttpError>)
      reads this
      ensures r.Ok? <==> userId in users
      ensures r.Ok? ==> r.value == users[userId]
      ensures r.Err? ==> r.error == NotFound(userId)
    {
      if userId in users then Ok(users[userId]) else Err(NotFound(userId))
    }

    /** `update_user`: 404 for a missing id comes before the permission check;
        then 403 unless the caller is the user or an administrator; then the
        supplied fields are set and `updatedAt` is stamped. No other field
        and no other user changes. */
    method UpdateUser(userId: int, data: UserUpdate, caller: UserRecord, now: int)
      returns (r: Result<UserRecord, HttpError>)
      requires Valid()
      modifies this
      ensures Valid() && nextId == old(nextId)
      ensures userId !in old(users) ==> r == Err(NotFound(userId)) && users == old(users)
      ensures userId in old(users) && !CanModify(caller, userId) ==>
                r == Err(HttpError(403, "You can only update your own profile")) && users == old(users)
      ensures userId in old(users) && CanModify(caller, userId) ==>
                && r == Ok(Patched(old(users)[userId], data).(updatedAt := now))
                && users == old(users)[userId := r.value]
      ensures old(Unique()) && r.Ok? ==> Unique()
    {
      if userId !in users {
        return Err(NotFound(userId));
      }
      if caller.id != userId && caller.role != Admin {
        return Err(HttpError(403, "You can only update your own profile"));
      }
      var user := users[userId];
      var fields := SuppliedFields(data);
      for i := 0 to |fields|
        invariant SetAll(user, fields[i..]) == SetAll(users[userId], fields)
      {
        assert fields[i..][0] == fields[i] && fields[i..][1..] == fields[i + 1..];
        user := SetAttr(user, fields[i]);
      }
      assert fields[|fields|..] == [];
      SetAllSupplied(users[userId], data);
      user := user.(updatedAt := now);
      users := users[userId := user];
      r := Ok(user);
    }

    /** `delete_user`: administrators only (403), 404 for a missing id, and
        otherwise exactly that record is removed. */
    method DeleteUser(userId: int, caller: UserRecord) returns (r: Result<(), HttpError>)
      requires Valid()
      modifies this
      ensures Valid() && nextId == old(nextId)
      ensures caller.role != Admin ==> r == Err(HttpError(403, "Admin access required")) && users == old(users)
      ensures caller.role == Admin && userId !in old(users) ==> r == Err(NotFound(userId)) && users == old(users)
      ensures caller.role == Admin && userId in old(users) ==>
                r == Ok(()) && users == old(users) - {userId} && |users| == |old(users)| - 1
      ensures old(Unique()) ==> Unique()
    {
      var admin := GetCurrentAdmin(caller);
      if admin.Err? {
        return Err(admin.error);
      }
      if userId !in users {
        return Err(NotFound(userId));
      }
      users := users - {userId};
      r := Ok(());
    }

    /** `batch_create_users`: administrators only (403); more than 100 entries
        get 400, exactly 100 are accepted; otherwise one record per entry is
        added, in order, and the records are returned in that order. As in
        the source, the entries are not checked against existing emails or
        usernames, nor against each other. */
    method BatchCreateUsers(entries: seq<UserCreate>, caller: UserRecord, hash: string -> string, now: int)
      returns (r: Result<seq<UserRecord>, HttpError>)
      requires Valid()
      modifies this
      ensures Valid()
      ensures caller.role != Admin ==>
                r == Err(HttpError(403, "Admin access required")) && users == old(users) && nextId == old(nextId)
      ensures caller.role == Admin && |entries| > 100 ==>
                r == Err(HttpError(400, "Maximum 100 users per batch")) && users == old(users) && nextId == old(nextId)
      ensures caller.role == Admin && |entries| <= 100 ==>
                && r.Ok? && |r.value| == |entries|
                && nextId == old(nextId) + |entries|
                && (forall i :: 0 <= i < |entries| ==> r.value[i] == NewRecord(old(nextId) + i, entries[i], hash, now))
                && (forall id :: id in users <==> id in old(users) || old(nextId) <= id < nextId)
                && (forall id :: id in old(users) ==> users[id] == old(users)[id])
                && (forall i :: 0 <= i < |entries| ==> users[old(nextId) + i] == r.value[i])
    {
      var admin := GetCurrentAdmin(caller);
      if admin.Err? {
        return Err(admin.error);
      }
      if |entries| > 100 {
        return Err(HttpError(400, "Maximum 100 users per batch"));
      }
      var created: seq<UserRecord> := [];
      for i := 0 to |entries|
        invariant Valid()
        invariant nextId == old(nextId) + i && |created| == i
        invariant forall j :: 0 <= j < i ==> created[j] == NewRecord(old(nextId) + j, entries[j], hash, now)
        invariant forall id :: id in users <==> id in old(users) || old(nextId) <= id < nextId
        invariant forall id :: id in old(users) ==> users[id] == old(users)[id]
        invariant forall j :: 0 <= j < i ==> users[old(nextId) + j] == created[j]
      {
        var user := NewRecord(nextId, entries[i], hash, now);
        users := users[nextId := user];
        nextId := nextId + 1;
        created := created + [user];
      }
      r := Ok(created);
    }

    /** `upload_avatar`: the checks of `CheckAvatar`; on success the URL is
        returned and stored on the user when the user exists. A missing user
        is not an error. */
    method UploadAvatar(userId: int, contentType: Option<string>, size: nat, filename: string, caller: UserRecord)
      returns (r: Result<string, HttpError>)
      requires Valid()
      modifies this
      ensures Valid() && nextId == old(nextId)
      ensures CheckAvatar(caller, userId, contentType, size).Err? ==>
                r == Err(CheckAvatar(caller, userId, contentType, size).error) && users == old(users)
      ensures CheckAvatar(caller, userId, contentType, size).Ok? ==>
                && r == Ok(AvatarUrl(userId, filename))
                && users == if userId in old(users)
                            then old(users)[userId := old(users)[userId].(avatarUrl := Some(r.value))]
                            else old(users)
      ensures old(Unique()) ==> Unique()
    {
      var check := CheckAvatar(caller, userId, contentType, size);
      if check.Err? {
        return Err(check.error);
      }
      var url := AvatarUrl(userId, filename);
      if userId in users {
        users := users[userId := users[userId].(avatarUrl := Some(url))];
      }
      r := Ok(url);
    }

    /** `activate_user`: administrators only (403), 404 for a missing id;
        sets `isActive` and stamps `updatedAt`. */
    method ActivateUser(userId: int, caller: UserRecord, now: int) returns (r: Result<UserRecord, HttpError>)
      requires Valid()
      modifies this
      ensures Valid() && nextId == old(nextId)
      ensures caller.role != Admin ==> r == Err(HttpError(403, "Admin access required")) && users == old(users)
      ensures caller.role == Admin && userId !in old(users) ==> r == Err(NotFound(userId)) && users == old(users)
      ensures caller.role == Admin && userId in old(users) ==>
                && r == Ok(old(users)[userId].(isActive := true, updatedAt := now))
                && users == old(users)[userId := r.value]
      ensures old(Unique()) ==> Unique()
    {
      var admin := GetCurrentAdmin(caller);
      if admin.Err? {
        return Err(admin.error);
      }
      if userId !in users {
        return Err(NotFound(userId));
      }
      var user := users[userId].(isActive := true, updatedAt := now);
      users := users[userId := user];
      r := Ok(user);
    }

    /** `deactivate_user`: as `ActivateUser`, clearing `isActive`. */
    method DeactivateUser(userId: int, caller: UserRecord, now: int) returns (r: Result<UserRecord, HttpError>)
      requires Valid()
      modifies this
      ensures Valid() && nextId == old(nextId)
      ensures caller.role != Admin ==> r == Err(HttpError(403, "Admin access required")) && users == old(users)
      ensures caller.role == Admin && userId !in old(users) ==> r == Err(NotFound(userId)) && users == old(users)
      ensures caller.role == Admin && userId in old(users) ==>
                && r == Ok(old(users)[userId].(isActive := false, updatedAt := now))
                && users == old(users)[userId := r.value]
      ensures old(Unique()) ==> Unique()
    {
      var admin := GetCurrentAdmin(caller);
      if admin.Err? {
        return Err(admin.error);
      }
      if userId !in users {
        return Err(NotFound(userId));
      }
      var user := users[userId].(isActive := false, updatedAt := now);
      users := users[userId := user];
      r := Ok(user);
    }

    /** `get_user_stats`: administrators only; the number of users, of active
        ones, of each role and of those created in the last seven days, with
        `inactive = total - active`, which is the number of inactive users. */
    method GetUserStats(caller: UserRecord, now: int) returns (r: Result<UserStats, HttpError>)
      ensures r.Err? <==> caller.role != Admin
      ensures r.Err? ==> r.error == HttpError(403, "Admin access required")
      ensures r.Ok? ==>
                && r.value.total == |users|
                && r.value.active == |ActiveIds(users)|
                && r.value.inactive == |InactiveIds(users)|
                && r.value.recentSignups == |RecentIds(users, now - WeekSeconds)|
                && r.value.byRole.Keys == {User, Moderator, Admin}
                && (forall role :: role in r.value.byRole ==> r.value.byRole[role] == |RoleIds(users, role)|)
                && r.value.byRole[User] + r.value.byRole[Moderator] + r.value.byRole[Admin] == r.value.total
    {
      var admin := GetCurrentAdmin(caller);
      if admin.Err? {
        return Err(admin.error);
      }
      var total := |users|;
      var active := |ActiveIds(users)|;
      var roleCounts: map<Role, int> := map[];
      for i := 0 to |AllRoles|
        invariant roleCounts.Keys == set j | 0 <= j < i :: AllRoles[j]
        invariant forall role :: role in roleCounts ==> roleCounts[role] == |RoleIds(users, role)|
      {
        roleCounts := roleCounts[AllRoles[i] := |RoleIds(users, AllRoles[i])|];
      }
      assert roleCounts.Keys == {User, Moderator, Admin} by {
        assert forall role :: role in roleCounts.Keys <==> role == AllRoles[0] || role == AllRoles[1] || role == AllRoles[2];
      }
      var recent := |RecentIds(users, now - WeekSeconds)|;
      ActivePartition(users);
      RolePartition(users);
      r := Ok(UserStats(total, active, total - active, roleCounts, recent));
    }
  }

  /** Activating and then deactivating leaves the user inactive; a second
      registration with the same email is refused. */
  method LifecycleScenario(admin: UserRecord, hash: string -> string)
    requires admin.role == Admin
  {
    var store := new UserStore();
    var a := store.CreateUser(UserCreate("a@x.io", "ann", "secret-pw", "Ann", "Lee"), hash, 10);
    assert a.Ok? && a.value.id == 1 && a.value.isActive;
    var b := store.CreateUser(UserCreate("a@x.io", "bob", "secret-pw", "Bob", "Ray"), hash, 11);
    assert store.users[1].email == "a@x.io";
    assert b == Err(HttpError(409, "Email already registered"));
    var on := store.ActivateUser(1, admin, 12);
    var off := store.DeactivateUser(1, admin, 13);
    assert off.Ok? && !store.users[1].isActive;
  }

  /** A batch whose entries share an email is stored as given, which breaks
      the email uniqueness `create_user` keeps. */
  method BatchDuplicatesScenario(admin: UserRecord, hash: string -> string)
    requires admin.role == Admin
  {
    var store := new UserStore();
    var entry := UserCreate("c@x.io", "cy", "pw-123456", "C", "D");
    var batch := store.BatchCreateUsers([entry, entry], admin, hash, 15);
    assert batch.Ok? && batch.value[0].email == "c@x.io" && batch.value[1].email == "c@x.io";
    assert store.users[1 + 0] == batch.value[0] && store.users[1 + 1] == batch.value[1];
    assert store.users[1].email == store.users[2].email;
    assert !store.Unique();
    assert store.EmailShared("c@x.io");
    var again := store.CreateUser(UserCreate("c@x.io", "dee", "pw-654321", "E", "F"), hash, 16);
    assert again == Err(InternalError);
  }
}
