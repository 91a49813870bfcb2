/**
 * The admin user endpoints (AdminAPI): create, read, update and delete over
 * the users and roles tables, with deletion cascading to refresh tokens.
 */
module AdminApi {
  import opened Wrappers
  import opened JavaText
  import opened Entities
  import opened RefreshTokenService
  import opened Repositories
  import opened Slug

  /** The user updateUser saves: the DTO's email, name and slug, a new password only if one is given, the role only if one is named. */
  function UpdatedUser(lower: CaseMapping, u: User, dto: UserDto, encodedPassword: string): User
    requires dto.fullName.Some?
  {
    u.(email := dto.email,
       password := if dto.password.Some? && dto.password.value != [] then Some(encodedPassword) else u.password,
       fullName := dto.fullName,
       slug := Some(BaseSlug(lower, dto.fullName.value)),
       roleId := if dto.roleId.Some? then dto.roleId else u.roleId)
  }

  class AdminApi {
    const db: Database
    const refreshTokens: RefreshTokenStore
    const lowerCase: CaseMapping

    constructor (db: Database, refreshTokens: RefreshTokenStore, lowerCase: CaseMapping)
      requires LowerCaseLaws(lowerCase)
      ensures this.db == db && this.refreshTokens == refreshTokens && this.lowerCase == lowerCase
    {
      this.db := db;
      this.refreshTokens := refreshTokens;
      this.lowerCase := lowerCase;
    }

    ghost predicate Valid()
      reads db, refreshTokens
    {
      db.Valid() && refreshTokens.Valid() && LowerCaseLaws(lowerCase)
    }

    /**
     * createUser: 400 if the email is already held; otherwise a user with the
     * encoded password, the name, its slug (no number) and the given role (400
     * if it does not exist) or the "customer" role, created when missing. A
     * null password or name makes the handler throw before anything is saved.
     */
    method CreateUser(dto: UserDto, newId: Uuid, encodedPassword: string, newRoleId: Uuid) returns (resp: Response)
      requires Valid()
      requires newId !in db.users && newRoleId !in db.roles
      modifies db
      ensures Valid()
      ensures EmailInUse(old(db.users), dto.email) ==>
        resp == Reply(BAD_REQUEST, Text(EmailExists)) && unchanged(db)
      ensures !EmailInUse(old(db.users), dto.email) && dto.password.None? ==>
        resp == Thrown(NullPassword) && unchanged(db)
      ensures !EmailInUse(old(db.users), dto.email) && dto.password.Some? && dto.fullName.None? ==>
        resp == Thrown(NullDereference) && unchanged(db)
      ensures !EmailInUse(old(db.users), dto.email) && dto.password.Some? && dto.fullName.Some?
              && dto.roleId.Some? && dto.roleId.value !in old(db.roles) ==>
        resp == Reply(BAD_REQUEST, Text(RoleNotFound(dto.roleId.value))) && unchanged(db)
      ensures resp.Reply? && resp.status == OK <==>
        !EmailInUse(old(db.users), dto.email) && dto.password.Some? && dto.fullName.Some?
        && (dto.roleId.Some? ==> dto.roleId.value in old(db.roles))
      ensures resp.Reply? && resp.status == OK ==>
        && resp == Reply(OK, Text(UserCreated))
        && newId in db.users
        && db.users == old(db.users)[newId := db.users[newId]]
        && var u := db.users[newId];
        && u == User(newId, dto.email, Some(encodedPassword), dto.fullName,
                     Some(BaseSlug(lowerCase, dto.fullName.value)), None, None, None, None, u.roleId)
        && u.roleId.Some? && u.roleId.value in db.roles
        && (dto.roleId.Some? ==> u.roleId == dto.roleId && db.roles == old(db.roles))
        && (dto.roleId.None? ==> db.roles[u.roleId.value].name == CUSTOMER)
        && (dto.roleId.None? && !old(HasCustomerRole(db.roles)) ==>
              db.roles == old(db.roles)[newRoleId := Role(newRoleId, CUSTOMER, CUSTOMER_DESCRIPTION)])
        && (dto.roleId.None? && old(HasCustomerRole(db.roles)) ==> db.roles == old(db.roles))
      ensures old(SessionsOwned(refreshTokens.table, db.users)) ==> SessionsOwned(refreshTokens.table, db.users)
    {
      var existing := db.FindByEmail(dto.email);
      if existing.Some? {
        return Reply(BAD_REQUEST, Text(EmailExists));
      }
      if dto.password.None? {
        return Thrown(NullPassword);
      }
      if dto.fullName.None? {
        return Thrown(NullDereference);
      }
      var slug := BaseSlug(lowerCase, dto.fullName.value);
      var role: Role;
      if dto.roleId.Some? {
        if dto.roleId.value !in db.roles {
          return Reply(BAD_REQUEST, Text(RoleNotFound(dto.roleId.value)));
        }
        role := db.roles[dto.roleId.value];
      } else {
        role := db.FindOrCreateCustomerRole(newRoleId);
      }
      var user := User(newId, dto.email, Some(encodedPassword), dto.fullName, Some(slug), None, None, None, None, Some(role.id));
      db.SaveUser(user);
      resp := Reply(OK, Text(UserCreated));
    }

    /** get-all: every user, projected to a DTO without password. */
    method GetAllUsers() returns (resp: Response)
      requires Valid()
      ensures resp.Reply? && resp.status == OK && resp.body.Profiles?
      ensures forall d :: d in resp.body.users <==> exists id :: id in db.users && d == ToDto(db.users[id])
      ensures forall d :: d in resp.body.users ==> d.password == None && d.id.Some? && d.id.value in db.users
    {
      var dtos := set id | id in db.users :: ToDto(db.users[id]);
      resp := Reply(OK, Profiles(dtos));
    }

    /** get-by-id: 404 for an unknown id, else the user projected to a DTO without password. */
    method GetUserById(id: Uuid) returns (resp: Response)
      requires Valid()
      ensures id !in db.users ==> resp == Reply(NOT_FOUND, Text(UserIdNotFound(id)))
      ensures id in db.users ==> resp == Reply(OK, Profile(ToDto(db.users[id])))
      ensures resp.Reply? && resp.body.Profile? ==>
        resp.body.user.password == None && resp.body.user.id == Some(id)
    {
      if id !in db.users {
        return Reply(NOT_FOUND, Text(UserIdNotFound(id)));
      }
      resp := Reply(OK, Profile(ToDto(db.users[id])));
    }

    /**
     * updateUser: 404 for an unknown id; 400 if another user holds the new
     * email (keeping one's own is allowed); 400 for an unknown role, without
     * saving. The password changes only when a non-empty one is given and the
     * role only when one is named.
     */
    method UpdateUser(id: Uuid, dto: UserDto, encodedPassword: string) returns (resp: Response)
      requires Valid()
      modifies db
      ensures Valid()
      ensures db.roles == old(db.roles)
      ensures id !in old(db.users) ==>
        resp == Reply(NOT_FOUND, Text(UserIdNotFound(id))) && db.users == old(db.users)
      ensures id in old(db.users) && EmailInUseByOther(old(db.users), dto.email, id) ==>
        resp == Reply(BAD_REQUEST, Text(EmailExists)) && db.users == old(db.users)
      ensures id in old(db.users) && !EmailInUseByOther(old(db.users), dto.email, id) && dto.fullName.None? ==>
        resp == Thrown(NullDereference) && db.users == old(db.users)
      ensures id in old(db.users) && !EmailInUseByOther(old(db.users), dto.email, id) && dto.fullName.Some?
              && dto.roleId.Some? && dto.roleId.value !in db.roles ==>
        resp == Reply(BAD_REQUEST, Text(RoleNotFound(dto.roleId.value))) && db.users == old(db.users)
      ensures resp.Reply? && resp.status == OK <==>
        id in old(db.users) && !EmailInUseByOther(old(db.users), dto.email, id) && dto.fullName.Some?
        && (dto.roleId.Some? ==> dto.roleId.value in db.roles)
      ensures resp.Reply? && resp.status == OK ==>
        resp == Reply(OK, Text(UserUpdated)) &&
        db.users == old(db.users)[id := UpdatedUser(lowerCase, old(db.users)[id], dto, encodedPassword)]
      ensures id in old(db.users) && dto.email == old(db.users)[id].email && dto.fullName.Some? && dto.roleId.None? ==>
        resp == Reply(OK, Text(UserUpdated))
      ensures old(SessionsOwned(refreshTokens.table, db.users)) ==> SessionsOwned(refreshTokens.table, db.users)
    {
      if id !in db.users {
        return Reply(NOT_FOUND, Text(UserIdNotFound(id)));
      }
      var user := db.users[id];
      var existing := db.FindByEmail(dto.email);
      if existing.Some? && existing.value.id != id {
        return Reply(BAD_REQUEST, Text(EmailExists));
      }
      ghost var users := db.users;
      assert !EmailInUseByOther(users, dto.email, id) by {
        forall other | other in users && other != id ensures users[other].email != dto.email {
          assert users[other].email == dto.email ==> EmailInUse(users, dto.email);
        }
      }
      user := user.(email := dto.email);
      if dto.password.Some? && dto.password.value != [] {
        user := user.(password := Some(encodedPassword));
      }
      if dto.fullName.None? {
        return Thrown(NullDereference);
      }
      user := user.(fullName := dto.fullName, slug := Some(BaseSlug(lowerCase, dto.fullName.value)));
      if dto.roleId.Some? {
        if dto.roleId.value !in db.roles {
          return Reply(BAD_REQUEST, Text(RoleNotFound(dto.roleId.value)));
        }
        user := user.(roleId := dto.roleId);
      }
      db.SaveUser(user);
      resp := Reply(OK, Text(UserUpdated));
    }

    /** deleteUser: 404 for an unknown id; otherwise the user's refresh tokens are deleted, then the user. */
    method DeleteUser(id: Uuid) returns (resp: Response)
      requires Valid()
      modifies db, refreshTokens
      ensures Valid()
      ensures db.roles == old(db.roles)
      ensures id !in old(db.users) ==>
        resp == Reply(NOT_FOUND, Text(UserIdNotFound(id)))
        && db.users == old(db.users) && refreshTokens.table == old(refreshTokens.table)
      ensures id in old(db.users) ==>
        && resp == Reply(OK, Text(UserDeleted))
        && refreshTokens.table == DeleteByUser(old(refreshTokens.table), id)
        && SessionsOf(refreshTokens.table, id) == {}
        && db.users == old(db.users) - {id}
      ensures old(SessionsOwned(refreshTokens.table, db.users)) ==> SessionsOwned(refreshTokens.table, db.users)
    {
      if id !in db.users {
        return Reply(NOT_FOUND, Text(UserIdNotFound(id)));
      }
      refreshTokens.DeleteByUserId(id);
      DeleteByUserRemovesAll(old(refreshTokens.table), id);
      db.users := db.users - {id};
      resp := Reply(OK, Text(UserDeleted));
    }
  }
}
