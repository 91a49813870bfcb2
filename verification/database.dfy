/**
 * The `users` and `roles` tables behind UserRepository and RoleRepository.
 * Each table is a map from id to row. A null email is looked up as
 * `email IS NULL`, the way a derived query treats a null argument.
 */
module Repositories {
  import opened Wrappers
  import opened Entities

  /** The name of the role a user gets when none is given. */
  const CUSTOMER: string := "customer"
  const CUSTOMER_DESCRIPTION: string := "Khách hàng mặc định"

  type Users = map<Uuid, User>
  type Roles = map<Uuid, Role>

  /** Some user has exactly this (possibly null) email. */
  predicate EmailInUse(users: Users, email: Option<string>)
  {
    exists id :: id in users && users[id].email == email
  }

  /** A user other than `id` has exactly this email. */
  predicate EmailInUseByOther(users: Users, email: Option<string>, id: Uuid)
  {
    exists other :: other in users && other != id && users[other].email == email
  }

  predicate HasCustomerRole(roles: Roles)
  {
    exists id :: id in roles && roles[id].name == CUSTOMER
  }

  /** The user holding `email`, in a table where emails are unique. */
  ghost function OwnerOf(users: Users, email: Option<string>): (id: Uuid)
    requires EmailInUse(users, email)
    ensures id in users && users[id].email == email
  {
    var id :| id in users && users[id].email == email; id
  }

  /** Every refresh-token row belongs to an existing user. */
  ghost predicate SessionsOwned(sessions: map<Uuid, RefreshToken>, users: Users)
  {
    forall id :: id in sessions ==> sessions[id].userId in users
  }

  class Database {
    var users: Users
    var roles: Roles

    /**
     * Rows sit under their own ids, emails (null included) are unique, role
     * names are unique, and every user's role exists.
     */
    ghost predicate Valid()
      reads this
    {
      && (forall id :: id in users ==> users[id].id == id)
      && (forall a, b :: a in users && b in users && users[a].email == users[b].email ==> a == b)
      && (forall id :: id in roles ==> roles[id].id == id)
      && (forall a, b :: a in roles && b in roles && roles[a].name == roles[b].name ==> a == b)
      && (forall id :: id in users && users[id].roleId.Some? ==> users[id].roleId.value in roles)
    }

    constructor ()
      ensures Valid() && users == map[] && roles == map[]
    {
      users, roles := map[], map[];
    }

    /** userRepository.findByEmail: the user holding `email`, or null. */
    method FindByEmail(email: Option<string>) returns (u: Option<User>)
      requires Valid()
      ensures u.None? <==> !EmailInUse(users, email)
      ensures u.Some? ==> u.value == users[OwnerOf(users, email)]
      ensures u.Some? ==> u.value.id in users && users[u.value.id] == u.value && u.value.email == email
    {
      if EmailInUse(users, email) {
        var id :| id in users && users[id].email == email;
        u := Some(users[id]);
      } else {
        u := None;
      }
    }

    /**
     * userRepository.save: inserts the row, or replaces the row with the same
     * id. The callers check first that no other user holds the email and that
     * the role exists.
     */
    method SaveUser(u: User)
      requires Valid()
      requires !EmailInUseByOther(users, u.email, u.id)
      requires u.roleId.Some? ==> u.roleId.value in roles
      modifies this
      ensures Valid()
      ensures users == old(users)[u.id := u] && roles == old(roles)
    {
      users := users[u.id := u];
    }

    /**
     * roleRepository.findByName("customer"), or, when there is no such role,
     * a new "customer" role saved under the fresh id `newRoleId`.
     */
    method FindOrCreateCustomerRole(newRoleId: Uuid) returns (role: Role)
      requires Valid() && newRoleId !in roles
      modifies this
      ensures Valid() && users == old(users)
      ensures role.id in roles && roles[role.id] == role && role.name == CUSTOMER
      ensures old(HasCustomerRole(roles)) ==> roles == old(roles)
      ensures !old(HasCustomerRole(roles)) ==>
        role == Role(newRoleId, CUSTOMER, CUSTOMER_DESCRIPTION) && roles == old(roles)[newRoleId := role]
    {
      if HasCustomerRole(roles) {
        var id :| id in roles && roles[id].name == CUSTOMER;
        role := roles[id];
      } else {
        role := Role(newRoleId, CUSTOMER, CUSTOMER_DESCRIPTION);
        roles := roles[newRoleId := role];
      }
    }
  }
}
