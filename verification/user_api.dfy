/**
 * The public user endpoints (UserAPI): registration, login, token refresh and
 * lookup by email. The handler's collaborators are fields; the random values
 * (UUIDs, the slug number), the clock, the password encoder's output and the
 * authentication manager's verdict are parameters.
 */
module UserApi {
  import opened Wrappers
  import opened JavaText
  import opened Entities
  import JwtUtil
  import opened RefreshTokenService
  import opened Repositories
  import opened Validation
  import opened Slug

  class UserApi {
    const db: Database
    const refreshTokens: RefreshTokenStore
    const jwt: JwtUtil.Config
    const lowerCase: CaseMapping

    constructor (db: Database, refreshTokens: RefreshTokenStore, jwt: JwtUtil.Config, lowerCase: CaseMapping)
      requires LowerCaseLaws(lowerCase)
      ensures this.db == db && this.refreshTokens == refreshTokens && this.jwt == jwt && this.lowerCase == lowerCase
    {
      this.db := db;
      this.refreshTokens := refreshTokens;
      this.jwt := jwt;
      this.lowerCase := lowerCase;
    }

    ghost predicate Valid()
      reads db, refreshTokens
    {
      db.Valid() && refreshTokens.Valid() && LowerCaseLaws(lowerCase)
    }

    /**
     * The validation part of register: each field is checked in turn and
     * contributes at most one error to the list, in the order email,
     * full_name, phone, password.
     */
    method ValidateRegistration(dto: UserDto) returns (errors: seq<ValidationError>)
      requires Valid()
      ensures errors == RegistrationErrors(dto, db.users)
    {
      errors := [];

      // email
      if dto.email.None? || dto.email.value == [] {
        errors := errors + [ValidationError("email", EmailBlank)];
      } else if ' ' in dto.email.value {
        errors := errors + [ValidationError("email", EmailHasWhitespace)];
      } else if !EmailMatches(dto.email.value) {
        errors := errors + [ValidationError("email", EmailMalformed)];
      } else {
        var existing := db.FindByEmail(dto.email);
        if existing.Some? {
          errors := errors + [ValidationError("email", EmailTaken)];
        }
      }

      assert errors == Tagged("email", EmailCheck(dto.email, db.users));
      ghost var afterEmail := errors;

      // full name
      if dto.fullName.None? || dto.fullName.value == [] {
        errors := errors + [ValidationError("full_name", NameBlank)];
      } else if Trim(dto.fullName.value) != dto.fullName.value {
        errors := errors + [ValidationError("full_name", NameUntrimmed)];
      } else if !FullNameMatches(dto.fullName.value) {
        errors := errors + [ValidationError("full_name", NameMalformed)];
      } else {
        var emoji := ContainsEmoji(Utf16(dto.fullName.value));
        if emoji {
          errors := errors + [ValidationError("full_name", NameHasEmoji)];
        }
      }

      assert errors == afterEmail + Tagged("full_name", NameCheck(dto.fullName));
      ghost var afterName := errors;

      // phone
      if dto.phone.None? || dto.phone.value == [] {
        errors := errors + [ValidationError("phone", PhoneBlank)];
      } else if !PhoneMatches(dto.phone.value) {
        errors := errors + [ValidationError("phone", PhoneMalformed)];
      }

      assert errors == afterName + Tagged("phone", PhoneCheck(dto.phone));
      ghost var afterPhone := errors;

      // password
      if dto.password.None? || dto.password.value == [] {
        errors := errors + [ValidationError("password", PasswordBlank)];
      }

    }

    /**
     * register: validates the four fields, collecting at most one error each;
     * any error gives 400 with the list and saves nothing. Otherwise a user is
     * saved under `newId` with the encoded password, the slug built from the
     * name and `randomNumber`, and the given role (400 if it does not exist) or
     * the "customer" role, created under `newRoleId` when missing.
     */
    method Register(dto: UserDto, newId: Uuid, encodedPassword: string, randomNumber: int, newRoleId: Uuid)
      returns (resp: Response)
      requires Valid()
      requires newId !in db.users && newRoleId !in db.roles
      requires 0 <= randomNumber < 1000
      modifies db
      ensures Valid()
      ensures var errs := RegistrationErrors(dto, old(db.users));
        errs != [] ==> resp == Reply(BAD_REQUEST, Errors(errs)) && unchanged(db)
      ensures RegistrationErrors(dto, old(db.users)) == [] && dto.roleId.Some? && dto.roleId.value !in old(db.roles) ==>
        resp == Reply(BAD_REQUEST, Errors([ValidationError("role_id", RoleNotFound(dto.roleId.value))])) && unchanged(db)
      ensures resp.Reply? && resp.status == OK <==>
        RegistrationErrors(dto, old(db.users)) == [] && (dto.roleId.Some? ==> dto.roleId.value in old(db.roles))
      ensures resp.Reply? && resp.status == OK ==>
        && resp == Reply(OK, Text(UserRegistered))
        && newId in db.users
        && db.users == old(db.users)[newId := db.users[newId]]
        && var u := db.users[newId];
        && u == User(newId, dto.email, Some(encodedPassword), dto.fullName,
                     Some(RegistrationSlug(lowerCase, dto.fullName.value, randomNumber)), None, None, dto.phone, None, u.roleId)
        && u.roleId.Some? && u.roleId.value in db.roles
        && (dto.roleId.Some? ==> u.roleId == dto.roleId && db.roles == old(db.roles))
        && (dto.roleId.None? ==> db.roles[u.roleId.value].name == CUSTOMER)
        && (dto.roleId.None? && !old(HasCustomerRole(db.roles)) ==>
              db.roles == old(db.roles)[newRoleId := Role(newRoleId, CUSTOMER, CUSTOMER_DESCRIPTION)])
        && (dto.roleId.None? && old(HasCustomerRole(db.roles)) ==> db.roles == old(db.roles))
      ensures resp.Reply?
      ensures old(SessionsOwned(refreshTokens.table, db.users)) ==> SessionsOwned(refreshTokens.table, db.users)
    {
      var errors := ValidateRegistration(dto);
      if errors != [] {
        return Reply(BAD_REQUEST, Errors(errors));
      }
      assert EmailCheck(dto.email, db.users) == None && NameCheck(dto.fullName) == None;
      assert dto.email.Some? && !EmailInUse(db.users, dto.email) && dto.fullName.Some?;

      var slug := RegistrationSlug(lowerCase, dto.fullName.value, randomNumber);
      var role: Role;
      if dto.roleId.Some? {
        if dto.roleId.value !in db.roles {
          errors := errors + [ValidationError("role_id", RoleNotFound(dto.roleId.value))];
          assert errors == [ValidationError("role_id", RoleNotFound(dto.roleId.value))];
          return Reply(BAD_REQUEST, Errors(errors));
        }
        role := db.roles[dto.roleId.value];
      } else {
        role := db.FindOrCreateCustomerRole(newRoleId);
      }
      var user := User(newId, dto.email, Some(encodedPassword), dto.fullName, Some(slug), None, None, dto.phone, None, Some(role.id));
      db.SaveUser(user);
      resp := Reply(OK, Text(UserRegistered));
    }

    /**
     * login: a blank email or password gives 400, a refused authentication 401,
     * and neither touches the refresh-token table. On success the user's
     * sessions are replaced by one new session, whose token (not the JWT
     * refresh token also generated) is returned beside a fresh access token.
     */
    method Login(request: UserDto, authenticated: bool, now: Millis, newSessionId: Uuid, newSessionToken: string)
      returns (resp: Response)
      requires Valid()
      requires newSessionId !in refreshTokens.table && !HasToken(refreshTokens.table, newSessionToken)
      modifies refreshTokens
      ensures Valid()
      ensures request.email.None? || request.email.value == [] ==>
        resp == Reply(BAD_REQUEST, Text(EmailBlank)) && refreshTokens.table == old(refreshTokens.table)
      ensures request.email.Some? && request.email.value != [] && (request.password.None? || request.password.value == []) ==>
        resp == Reply(BAD_REQUEST, Text(PasswordBlank)) && refreshTokens.table == old(refreshTokens.table)
      ensures request.email.Some? && request.email.value != [] && request.password.Some? && request.password.value != [] ==>
        && (!authenticated ==> resp == Reply(UNAUTHORIZED, Text(BadCredentials)) && refreshTokens.table == old(refreshTokens.table))
        && (authenticated && !EmailInUse(db.users, request.email) ==> resp == Thrown(NullDereference) && refreshTokens.table == old(refreshTokens.table))
      ensures resp.Reply? && resp.status == OK ==>
        && request.email.Some? && EmailInUse(db.users, request.email) && authenticated
        && var user := db.users[OwnerOf(db.users, request.email)];
        && var session := NewSession(newSessionId, user.id, newSessionToken, now);
        && refreshTokens.table == DeleteByUser(old(refreshTokens.table), user.id)[newSessionId := session]
        && SessionsOf(refreshTokens.table, user.id) == {session}
        && resp.body == LoginBody(JwtUtil.GenerateAccessToken(jwt, request.email, now), newSessionToken,
                                  request.email.value, user.fullName)
      ensures resp.Reply? && resp.status == OK <==>
        request.email.Some? && request.email.value != [] && request.password.Some? && request.password.value != []
        && authenticated && EmailInUse(db.users, request.email)
      ensures old(SessionsOwned(refreshTokens.table, db.users)) ==> SessionsOwned(refreshTokens.table, db.users)
    {
      if request.email.None? || request.email.value == [] {
        return Reply(BAD_REQUEST, Text(EmailBlank));
      }
      if request.password.None? || request.password.value == [] {
        return Reply(BAD_REQUEST, Text(PasswordBlank));
      }
      if !authenticated {
        return Reply(UNAUTHORIZED, Text(BadCredentials));
      }
      var user := db.FindByEmail(request.email);
      var accessToken := JwtUtil.GenerateAccessToken(jwt, request.email, now);
      var refreshToken := JwtUtil.GenerateRefreshToken(jwt, request.email, now);
      if user.None? {
        return Thrown(NullDereference);
      }
      refreshTokens.DeleteByUserId(user.value.id);
      var session := refreshTokens.CreateRefreshToken(user.value.id, newSessionId, newSessionToken, now);
      ReplaceLeavesOneSession(old(refreshTokens.table), session);
      resp := Reply(OK, LoginBody(accessToken, session.token, request.email.value, user.value.fullName));
    }

    /**
     * refreshToken: a blank token gives 400 and an unknown one 401. A known
     * token past its expiry is deleted and the call throws. Otherwise the
     * owner gets a new access token and the same refresh token back, and the
     * table is unchanged: the refresh token is not rotated.
     */
    method RefreshToken(request: Option<string>, now: Millis) returns (resp: Response)
      requires Valid()
      modifies refreshTokens
      ensures Valid()
      ensures request.None? || request.value == [] ==>
        resp == Reply(BAD_REQUEST, Text(RefreshTokenBlank)) && refreshTokens.table == old(refreshTokens.table)
      ensures request.Some? && request.value != [] && !HasToken(old(refreshTokens.table), request.value) ==>
        resp == Reply(UNAUTHORIZED, Text(RefreshTokenInvalid)) && refreshTokens.table == old(refreshTokens.table)
      ensures request.Some? && request.value != [] && HasToken(old(refreshTokens.table), request.value) ==>
        var session := RowWithToken(old(refreshTokens.table), request.value);
        && (session.expiryDate < now ==>
              resp == Thrown(SessionExpired) && refreshTokens.table == old(refreshTokens.table) - {session.id}
              && !HasToken(refreshTokens.table, request.value))
        && (now <= session.expiryDate ==> refreshTokens.table == old(refreshTokens.table))
        && (now <= session.expiryDate && session.userId !in db.users ==> resp == Thrown(UserNotFound))
        && (now <= session.expiryDate && session.userId in db.users ==>
              resp == Reply(OK, RefreshBody(JwtUtil.GenerateAccessToken(jwt, db.users[session.userId].email, now),
                                            request.value)))
      ensures old(SessionsOwned(refreshTokens.table, db.users)) ==>
        SessionsOwned(refreshTokens.table, db.users) && resp != Thrown(UserNotFound)
    {
      if request.None? || request.value == [] {
        return Reply(BAD_REQUEST, Text(RefreshTokenBlank));
      }
      var found := refreshTokens.FindByToken(request.value);
      if found.None? {
        return Reply(UNAUTHORIZED, Text(RefreshTokenInvalid));
      }
      ghost var before, expiredId := refreshTokens.table, found.value.id;
      var verified := refreshTokens.VerifyExpiration(found.value, now);
      if verified.Failure? {
        assert !HasToken(refreshTokens.table, request.value) by {
          forall id | id in refreshTokens.table ensures refreshTokens.table[id].token != request.value {
            assert before[id].token == request.value ==> id == expiredId;
          }
        }
        return Thrown(verified.error);
      }
      var userId := verified.value.userId;
      assert refreshTokens.table == old(refreshTokens.table) && refreshTokens.table[found.value.id].userId == userId;
      assert old(SessionsOwned(refreshTokens.table, db.users)) ==> userId in db.users;
      if userId !in db.users {
        return Thrown(UserNotFound);
      }
      var newAccessToken := JwtUtil.GenerateAccessToken(jwt, db.users[userId].email, now);
      resp := Reply(OK, RefreshBody(newAccessToken, request.value));
    }

    /** get-by-email: 400 for a blank email, 404 when nobody has it, else the user without password. */
    method GetUserByEmail(email: Option<string>) returns (resp: Response)
      requires Valid()
      ensures email.None? || email.value == [] ==> resp == Reply(BAD_REQUEST, Text(EmailBlank))
      ensures email.Some? && email.value != [] && !EmailInUse(db.users, email) ==>
        resp == Reply(NOT_FOUND, Text(UserEmailNotFound(email.value)))
      ensures email.Some? && email.value != [] && EmailInUse(db.users, email) ==>
        resp == Reply(OK, Profile(ToDto(db.users[OwnerOf(db.users, email)])))
      ensures resp.Reply? && resp.body.Profile? ==>
        resp.body.user.password == None && resp.body.user.email == email
    {
      if email.None? || email.value == [] {
        return Reply(BAD_REQUEST, Text(EmailBlank));
      }
      var user := db.FindByEmail(email);
      if user.None? {
        return Reply(NOT_FOUND, Text(UserEmailNotFound(email.value)));
      }
      resp := Reply(OK, Profile(ToDto(user.value)));
    }
  }
}
