/** The account rules of the user controller: registration, profile update,
    and the password-reset token lifecycle. The Users table is read through
    the soft-delete filter; the table has no index on `Email`, so only the
    controller's own check keeps emails apart. The clock, the hash and salt of a new password and the random
    reset token are parameters. */
module Users {
  import opened Common
  import opened Passwords
  import opened UserMapper

  // ---- Queries ----

  /** A visible user whose lowercased email is `email`. */
  predicate EmailInUse(users: seq<User>, email: string) {
    exists u :: u in users && !u.isDeleted && ToLower(u.email) == email
  }

  predicate AdminExists(users: seq<User>) {
    exists u :: u in users && !u.isDeleted && u.role == AdminRole
  }

  /** No two visible users share a lowercased email. Deleted rows are not
      constrained: re-registering a deleted user's email stores a second row. */
  predicate VisibleEmailsDistinct(users: seq<User>) {
    forall i, j :: 0 <= i < j < |users| && !users[i].isDeleted && !users[j].isDeleted
      ==> ToLower(users[i].email) != ToLower(users[j].email)
  }

  // ---- RegisterUser ----

  datatype RegisterResult =
    | EmailConflict            // 409 "User already exists."
    | WeakPassword             // 400 "Password does not meet complexity requirements."
    | Registered(user: User)

  /** `RegisterUser`: the outcome and the table afterwards. */
  function Register(users: seq<User>, nextUserId: int, request: CreateUserDto, hash: Bytes, salt: Bytes): (r: (RegisterResult, seq<User>))
  {
    var email := ToLower(request.email);
    if EmailInUse(users, email) then (EmailConflict, users)
    else if !IsValid(request.password) then (WeakPassword, users)
    else
      var user := User(nextUserId, request.firstName, request.lastName, email, hash, salt,
                       if AdminExists(users) then UserRole else AdminRole, None, None, None, None, false);
      (Registered(user), users + [user])
  }

  /** Registration: a case-insensitive duplicate among visible users is a
      conflict whatever the password; otherwise a weak password is refused;
      a new user is stored with the lowercased email and the role Admin
      exactly when no visible admin existed. Nothing is stored otherwise,
      and no two visible users come to share a lowercased email. */
  lemma RegisterMeans(users: seq<User>, nextUserId: int, request: CreateUserDto, hash: Bytes, salt: Bytes)
    ensures var (r, after) := Register(users, nextUserId, request, hash, salt);
      && (r == EmailConflict <==> EmailInUse(users, ToLower(request.email)))
      && (r == WeakPassword <==> !EmailInUse(users, ToLower(request.email)) && !IsValid(request.password))
      && (r.Registered? ==>
            && IsValid(request.password)
            && r.user.email == ToLower(request.email)
            && ToLower(r.user.email) == r.user.email
            && (r.user.role == AdminRole <==> !AdminExists(users))
            && r.user.passwordHash == hash && r.user.passwordSalt == salt
            && r.user.passwordResetToken.None?
            && after == users + [r.user])
      && (!r.Registered? ==> after == users)
      && (VisibleEmailsDistinct(users) ==> VisibleEmailsDistinct(after))
  {
    var (r, after) := Register(users, nextUserId, request, hash, salt);
    ToLowerIdempotent(request.email);
    if r.Registered? && VisibleEmailsDistinct(users) {
      forall i, j | 0 <= i < j < |after| && !after[i].isDeleted && !after[j].isDeleted
        ensures ToLower(after[i].email) != ToLower(after[j].email)
      {
        if j == |users| { assert after[i] in users; }
      }
    }
  }

  /** A deleted user's email can be registered again: the new row is stored
      next to the deleted one. */
  lemma ReregisterAfterDelete(deleted: User, request: CreateUserDto, hash: Bytes, salt: Bytes)
    requires deleted.isDeleted
    requires IsValid(request.password)
    requires deleted.email == ToLower(request.email)
    ensures var (r, after) := Register([deleted], deleted.id + 1, request, hash, salt);
      && r.Registered? && after == [deleted, r.user] && after[0].email == after[1].email
  {
    ToLowerIdempotent(request.email);
  }

  /** The first user to register becomes the administrator. */
  lemma FirstUserIsAdmin(request: CreateUserDto, hash: Bytes, salt: Bytes)
    requires IsValid(request.password)
    ensures var (r, _) := Register([], 1, request, hash, salt);
      r.Registered? && r.user.role == AdminRole
  {
  }

  /** The controller's role rule is the mapper's `ToUser` with the flag
      standing for "an admin exists". */
  lemma RegisterAgreesWithToUser(users: seq<User>, nextUserId: int, request: CreateUserDto, hash: Bytes, salt: Bytes)
    requires Register(users, nextUserId, request, hash, salt).0.Registered?
    ensures Register(users, nextUserId, request, hash, salt).0.user
         == ToUser(request, hash, salt, AdminExists(users)).(id := nextUserId)
  {
  }

  // ---- UpdateUser ----

  datatype UpdateResult = UpdateUnauthorized | UserNotFound | ProfileUpdated

  /** The visible user with the id. */
  function FindUser(users: seq<User>, id: int): (r: Option<nat>)
    ensures r.Some? ==> r.value < |users| && users[r.value].id == id && !users[r.value].isDeleted
    ensures r.None? <==> forall u :: u in users && u.id == id ==> u.isDeleted
  {
    FindFirst(users, (u: User) => u.id == id && !u.isDeleted)
  }

  /** `request.X ?? user.X`: only a null field keeps its value. */
  function Coalesce<T>(requested: Option<T>, current: T): (r: T)
    ensures requested.Some? ==> r == requested.value
    ensures requested.None? ==> r == current
  {
    if requested.Some? then requested.value else current
  }

  function ApplyProfile(u: User, dto: UpdateUserDto): User {
    u.(firstName := Coalesce(dto.firstName, u.firstName), lastName := Coalesce(dto.lastName, u.lastName),
       phoneNumber := if dto.phoneNumber.Some? then dto.phoneNumber else u.phoneNumber,
       address := if dto.address.Some? then dto.address else u.address)
  }

  /** `UpdateUser`; `None` for the user id stands for a missing claim. */
  function UpdateProfile(users: seq<User>, userId: Option<int>, dto: UpdateUserDto): (r: (UpdateResult, seq<User>))
  {
    if userId.None? then (UpdateUnauthorized, users)
    else match FindUser(users, userId.value)
      case None => (UserNotFound, users)
      case Some(i) => (ProfileUpdated, users[i := ApplyProfile(users[i], dto)])
  }

  /** The profile update changes only the caller's four profile fields: a
      null field keeps its value and any other value, the empty string
      included, overwrites it. */
  lemma UpdateProfileMeans(users: seq<User>, userId: Option<int>, dto: UpdateUserDto)
    ensures var (r, after) := UpdateProfile(users, userId, dto);
      && (r == ProfileUpdated <==> userId.Some? && FindUser(users, userId.value).Some?)
      && |after| == |users|
      && (r == ProfileUpdated ==>
            var i := FindUser(users, userId.value).value;
            && after[i].(firstName := users[i].firstName, lastName := users[i].lastName,
                         phoneNumber := users[i].phoneNumber, address := users[i].address) == users[i]
            && (dto.firstName.Some? ==> after[i].firstName == dto.firstName.value)
            && (dto.firstName.None? ==> after[i].firstName == users[i].firstName)
            && (dto.lastName.Some? ==> after[i].lastName == dto.lastName.value)
            && (dto.lastName.None? ==> after[i].lastName == users[i].lastName)
            && (dto.phoneNumber.Some? ==> after[i].phoneNumber == dto.phoneNumber)
            && (dto.address.Some? ==> after[i].address == dto.address)
            && forall j :: 0 <= j < |users| && j != i ==> after[j] == users[j])
      && (r != ProfileUpdated ==> after == users)
  {
  }

  /** The controller and the mapper disagree on an empty field: the
      controller stores it, `UpdateUserFromDto` keeps the old value. */
  lemma ProfileRulesDifferOnEmpty(u: User, dto: UpdateUserDto)
    requires dto.firstName == Some("") && u.firstName != ""
    ensures ApplyProfile(u, dto).firstName == ""
    ensures UpdateUserFromDto(u, dto).firstName == u.firstName
  {
  }

  // ---- ForgotPassword and ResetPassword ----

  datatype ForgotResult = ForgotUserNotFound | TokenIssued(token: string)

  /** The visible user whose lowercased email matches. */
  function FindByEmail(users: seq<User>, email: string): (r: Option<nat>)
    ensures r.Some? ==> r.value < |users| && ToLower(users[r.value].email) == ToLower(email) && !users[r.value].isDeleted
    ensures r.None? <==> !EmailInUse(users, ToLower(email))
  {
    var k := FindFirst(users, (u: User) => ToLower(u.email) == ToLower(email) && !u.isDeleted);
    if k.None? then
      assert forall u :: u in users && !u.isDeleted ==> ToLower(u.email) != ToLower(email) by {
        forall u | u in users && !u.isDeleted ensures ToLower(u.email) != ToLower(email) {
          var i :| 0 <= i < |users| && users[i] == u;
        }
      }
      k
    else k
  }

  /** `ForgotPassword`: the user of the email gets the token, valid for one
      hour from now. */
  function Forgot(users: seq<User>, email: string, token: string, now: Time): (r: (ForgotResult, seq<User>))
  {
    match FindByEmail(users, email)
    case None => (ForgotUserNotFound, users)
    case Some(i) => (TokenIssued(token), users[i := users[i].(passwordResetToken := Some(token), tokenExpiry := Some(now + OneHour))])
  }

  datatype ResetResult = InvalidOrExpiredToken | PasswordReset

  /** The visible user holding the token, compared as stored: a null token
      matches a user with none. */
  function FindByToken(users: seq<User>, token: Option<string>): (r: Option<nat>)
    ensures r.Some? ==> r.value < |users| && users[r.value].passwordResetToken == token && !users[r.value].isDeleted
    ensures r.None? <==> forall u :: u in users && !u.isDeleted ==> u.passwordResetToken != token
    ensures r.Some? ==> forall j :: 0 <= j < r.value ==> users[j].isDeleted || users[j].passwordResetToken != token
  {
    var k := FindFirst(users, (u: User) => u.passwordResetToken == token && !u.isDeleted);
    if k.None? then
      assert forall u :: u in users && !u.isDeleted ==> u.passwordResetToken != token by {
        forall u | u in users && !u.isDeleted ensures u.passwordResetToken != token {
          var i :| 0 <= i < |users| && users[i] == u;
        }
      }
      k
    else k
  }

  /** `TokenExpiry < now`, where a null expiry compares as false. */
  predicate Expired(expiry: Option<Time>, now: Time) {
    expiry.Some? && expiry.value < now
  }

  /** `ResetPassword`, as written. */
  function Reset(users: seq<User>, token: Option<string>, hash: Bytes, salt: Bytes, now: Time): (r: (ResetResult, seq<User>))
  {
    match FindByToken(users, token)
    case None => (InvalidOrExpiredToken, users)
    case Some(i) =>
      if Expired(users[i].tokenExpiry, now) then (InvalidOrExpiredToken, users)
      else (PasswordReset, users[i := ResetPasswordFromDto(users[i], hash, salt)])
  }

  /** A token and its expiry are set and cleared together. */
  predicate TokensPaired(users: seq<User>) {
    forall u :: u in users ==> (u.passwordResetToken.None? <==> u.tokenExpiry.None?)
  }

  /** No visible user other than the one at `i` holds the token. */
  predicate TokenHeldOnlyAt(users: seq<User>, token: string, i: int) {
    forall j :: 0 <= j < |users| && j != i && !users[j].isDeleted ==> users[j].passwordResetToken != Some(token)
  }

  /** The token lifecycle: a token issued to a user and held by no one else
      resets that user's password within the hour, the reset clears it and
      its expiry, and the same token is then refused. Both steps keep
      tokens and expiries paired. */
  lemma TokenLifecycle(users: seq<User>, email: string, token: string, now: Time, later: Time, hash: Bytes, salt: Bytes)
    requires TokensPaired(users)
    requires FindByEmail(users, email).Some?
    requires TokenHeldOnlyAt(users, token, FindByEmail(users, email).value)
    requires now <= later <= now + OneHour
    ensures var i := FindByEmail(users, email).value;
      var (f, issued) := Forgot(users, email, token, now);
      var (r1, reset) := Reset(issued, Some(token), hash, salt, later);
      var (r2, again) := Reset(reset, Some(token), hash, salt, later);
      && f == TokenIssued(token) && TokensPaired(issued)
      && issued[i].tokenExpiry == Some(now + OneHour)
      && r1 == PasswordReset && TokensPaired(reset)
      && reset[i].passwordHash == hash && reset[i].passwordSalt == salt
      && reset[i].passwordResetToken.None? && reset[i].tokenExpiry.None?
      && r2 == InvalidOrExpiredToken && again == reset
  {
    var i := FindByEmail(users, email).value;
    var (f, issued) := Forgot(users, email, token, now);
    var k := FindByToken(issued, Some(token));
    assert issued[i].passwordResetToken == Some(token);
    assert k.Some?;
    assert k.value == i;
    var (r1, reset) := Reset(issued, Some(token), hash, salt, later);
    forall u | u in reset && !u.isDeleted ensures u.passwordResetToken != Some(token) {
      var j :| 0 <= j < |reset| && reset[j] == u;
    }
  }

  /** A token past its expiry is refused and nothing changes. */
  lemma ExpiredTokenRefused(users: seq<User>, token: string, hash: Bytes, salt: Bytes, now: Time)
    requires FindByToken(users, Some(token)).Some?
    requires Expired(users[FindByToken(users, Some(token)).value].tokenExpiry, now)
    ensures Reset(users, Some(token), hash, salt, now) == (InvalidOrExpiredToken, users)
  {
  }

  /** As written, a request with a null token matches the first visible
      user with no pending reset, whose null expiry never compares as
      expired: that user's password is replaced. */
  lemma NullTokenResetsUserWithoutToken(users: seq<User>, hash: Bytes, salt: Bytes, now: Time)
    requires TokensPaired(users)
    requires exists u :: u in users && !u.isDeleted && u.passwordResetToken.None?
    ensures var (r, after) := Reset(users, None, hash, salt, now);
      && r == PasswordReset
      && exists i :: 0 <= i < |users| && users[i].passwordResetToken.None? && after[i].passwordHash == hash
  {
    var u :| u in users && !u.isDeleted && u.passwordResetToken.None?;
    var k := FindByToken(users, None);
    assert users[k.value] in users;
  }

  /** The reset as intended: a token must be given, must match, and must
      carry an expiry not yet passed. */
  function ResetChecked(users: seq<User>, token: Option<string>, hash: Bytes, salt: Bytes, now: Time): (r: (ResetResult, seq<User>))
  {
    if token.None? then (InvalidOrExpiredToken, users)
    else match FindByToken(users, token)
      case None => (InvalidOrExpiredToken, users)
      case Some(i) =>
        if users[i].tokenExpiry.None? || users[i].tokenExpiry.value < now then (InvalidOrExpiredToken, users)
        else (PasswordReset, users[i := ResetPasswordFromDto(users[i], hash, salt)])
  }

  /** With the check as intended, a password is replaced only for the
      visible user that holds the given, non-null token before its expiry,
      and that token is gone afterwards; a null token changes nothing. */
  lemma ResetCheckedMeans(users: seq<User>, token: Option<string>, hash: Bytes, salt: Bytes, now: Time)
    ensures var (r, after) := ResetChecked(users, token, hash, salt, now);
      && (token.None? ==> r == InvalidOrExpiredToken && after == users)
      && (r == PasswordReset ==>
            exists i :: 0 <= i < |users| && !users[i].isDeleted && users[i].passwordResetToken == token && token.Some?
              && users[i].tokenExpiry.Some? && now <= users[i].tokenExpiry.value
              && after == users[i := ResetPasswordFromDto(users[i], hash, salt)])
      && (r != PasswordReset ==> after == users)
  {
  }

  /** Where a token is given and the expiry is set, the two checks agree. */
  lemma ResetCheckedAgrees(users: seq<User>, token: string, hash: Bytes, salt: Bytes, now: Time)
    requires TokensPaired(users)
    ensures ResetChecked(users, Some(token), hash, salt, now) == Reset(users, Some(token), hash, salt, now)
  {
    var k := FindByToken(users, Some(token));
    if k.Some? {
      assert users[k.value] in users;
    }
  }

  /** `UserController` over the Users table and its identity counter. */
  class UserController {
    var users: seq<User>
    var nextUserId: int

    constructor (users: seq<User>, nextUserId: int)
      ensures this.users == users && this.nextUserId == nextUserId
    {
      this.users := users;
      this.nextUserId := nextUserId;
    }

    method RegisterUser(request: CreateUserDto, hash: Bytes, salt: Bytes) returns (r: RegisterResult)
      modifies this
      ensures (r, users) == Register(old(users), old(nextUserId), request, hash, salt)
      ensures nextUserId == if r.Registered? then old(nextUserId) + 1 else old(nextUserId)
    {
      var email := ToLower(request.email);
      if EmailInUse(users, email) {
        return EmailConflict;
      }
      if !IsValid(request.password) {
        return WeakPassword;
      }
      var adminExists := AdminExists(users);
      var user := User(nextUserId, request.firstName, request.lastName, email, hash, salt,
                       if adminExists then UserRole else AdminRole, None, None, None, None, false);
      users := users + [user];
      nextUserId := nextUserId + 1;
      r := Registered(user);
    }

    method UpdateUser(userId: Option<int>, request: UpdateUserDto) returns (r: UpdateResult)
      modifies this`users
      ensures (r, users) == UpdateProfile(old(users), userId, request)
    {
      if userId.None? {
        return UpdateUnauthorized;
      }
      var k := FindUser(users, userId.value);
      if k.None? {
        return UserNotFound;
      }
      var i := k.value;
      var user := users[i];
      user := user.(firstName := Coalesce(request.firstName, user.firstName));
      user := user.(lastName := Coalesce(request.lastName, user.lastName));
      user := user.(phoneNumber := if request.phoneNumber.Some? then request.phoneNumber else user.phoneNumber);
      user := user.(address := if request.address.Some? then request.address else user.address);
      users := users[i := user];
      r := ProfileUpdated;
    }

    method ForgotPassword(email: string, token: string, now: Time) returns (r: ForgotResult)
      modifies this`users
      ensures (r, users) == Forgot(old(users), email, token, now)
    {
      var k := FindByEmail(users, email);
      if k.None? {
        return ForgotUserNotFound;
      }
      var i := k.value;
      users := users[i := users[i].(passwordResetToken := Some(token), tokenExpiry := Some(now + OneHour))];
      r := TokenIssued(token);
    }

    method ResetPassword(token: Option<string>, hash: Bytes, salt: Bytes, now: Time) returns (r: ResetResult)
      modifies this`users
      ensures (r, users) == Reset(old(users), token, hash, salt, now)
    {
      var k := FindByToken(users, token);
      if k.None? || Expired(users[k.value].tokenExpiry, now) {
        return InvalidOrExpiredToken;
      }
      var i := k.value;
      var user := users[i].(passwordHash := hash, passwordSalt := salt);
      user := user.(passwordResetToken := None, tokenExpiry := None);
      users := users[i := user];
      r := PasswordReset;
    }
  }
}
