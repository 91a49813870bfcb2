/**
 * The refresh-token session store (RefreshTokenService over the
 * `refresh_tokens` table). The table is a map from row id to row; the functions
 * below describe the table after each operation, and the class performs the
 * operations in place.
 */
module RefreshTokenService {
  import opened Wrappers
  import opened Entities

  /** The session lifetime: seven days, in milliseconds. */
  const REFRESH_TTL_MS: int := 604800000

  type Table = map<Uuid, RefreshToken>

  /** Rows are stored under their own id, and no two rows share a token string. */
  ghost predicate WellFormed(table: Table)
  {
    && (forall id :: id in table ==> table[id].id == id)
    && (forall a, b :: a in table && b in table && table[a].token == table[b].token ==> a == b)
  }

  predicate HasToken(table: Table, token: string)
  {
    exists id :: id in table && table[id].token == token
  }

  /** The sessions a user holds. */
  ghost function SessionsOf(table: Table, userId: Uuid): set<RefreshToken>
  {
    set id | id in table && table[id].userId == userId :: table[id]
  }

  /** The table after deleteByUserId: every row of `userId` gone, every other row kept. */
  function DeleteByUser(table: Table, userId: Uuid): (t: Table)
    ensures forall id :: id in t <==> id in table && table[id].userId != userId
    ensures forall id :: id in t ==> t[id] == table[id]
  {
    map id | id in table && table[id].userId != userId :: table[id]
  }

  /** The row createRefreshToken saves for `userId` at `now`. */
  function NewSession(id: Uuid, userId: Uuid, token: string, now: Millis): (r: RefreshToken)
    ensures r.userId == userId && r.token == token && r.expiryDate == now + REFRESH_TTL_MS
  {
    RefreshToken(id, userId, token, now + REFRESH_TTL_MS)
  }

  /** The row holding `token`, in a table where tokens are unique. */
  ghost function RowWithToken(table: Table, token: string): (r: RefreshToken)
    requires HasToken(table, token)
    ensures r in table.Values && r.token == token
  {
    var id :| id in table && table[id].token == token; table[id]
  }

  /** Deleting a user's sessions removes all of them, whatever the table held. */
  lemma DeleteByUserRemovesAll(table: Table, userId: Uuid)
    ensures SessionsOf(DeleteByUser(table, userId), userId) == {}
    ensures forall u :: u != userId ==> SessionsOf(DeleteByUser(table, userId), u) == SessionsOf(table, u)
  {
  }

  /** deleteByUserId is idempotent, and a no-op for a user without sessions. */
  lemma DeleteByUserIdempotent(table: Table, userId: Uuid)
    ensures DeleteByUser(DeleteByUser(table, userId), userId) == DeleteByUser(table, userId)
    ensures SessionsOf(table, userId) == {} ==> DeleteByUser(table, userId) == table
  {
    if SessionsOf(table, userId) == {} {
      forall id | id in table ensures table[id].userId != userId {
        assert table[id] !in SessionsOf(table, userId);
      }
    }
  }

  /**
   * createRefreshToken adds a session without removing the user's earlier ones:
   * a single session per user holds only if the caller deletes first.
   */
  lemma CreateKeepsEarlierSessions(table: Table, r: RefreshToken)
    requires r.id !in table
    ensures SessionsOf(table[r.id := r], r.userId) == SessionsOf(table, r.userId) + {r}
  {
    var after := table[r.id := r];
    forall s | s in SessionsOf(after, r.userId) ensures s in SessionsOf(table, r.userId) + {r} {
      var id :| id in after && after[id].userId == r.userId && after[id] == s;
      if id != r.id {
        assert table[id] == s;
      }
    }
    forall s | s in SessionsOf(table, r.userId) ensures s in SessionsOf(after, r.userId) {
      var id :| id in table && table[id].userId == r.userId && table[id] == s;
      assert id != r.id && after[id] == s;
    }
    assert after[r.id] == r;
  }

  /** Delete-then-create, as login does it, leaves the user exactly one session: the new one. */
  lemma ReplaceLeavesOneSession(table: Table, r: RefreshToken)
    requires r.id !in table
    ensures SessionsOf(DeleteByUser(table, r.userId)[r.id := r], r.userId) == {r}
  {
    DeleteByUserRemovesAll(table, r.userId);
    CreateKeepsEarlierSessions(DeleteByUser(table, r.userId), r);
  }

  /** After two delete-then-create rounds for one user, only the second token is found. */
  lemma SecondSessionSupersedesFirst(table: Table, r1: RefreshToken, r2: RefreshToken)
    requires WellFormed(table) && r1.id !in table && !HasToken(table, r1.token)
    requires r2.userId == r1.userId && r2.id != r1.id && r2.id !in table && r2.token != r1.token
    ensures var t1 := DeleteByUser(table, r1.userId)[r1.id := r1];
      var t2 := DeleteByUser(t1, r2.userId)[r2.id := r2];
      !HasToken(t2, r1.token) && HasToken(t2, r2.token) && SessionsOf(t2, r1.userId) == {r2}
  {
    var t1 := DeleteByUser(table, r1.userId)[r1.id := r1];
    var t2 := DeleteByUser(t1, r2.userId)[r2.id := r2];
    assert r2.id !in DeleteByUser(t1, r2.userId);
    ReplaceLeavesOneSession(t1, r2);
    forall id | id in t2 ensures t2[id].token != r1.token {
      assert id != r2.id ==> id in t1 && t1[id].userId != r1.userId && id != r1.id && id in table;
    }
    assert t2[r2.id].token == r2.token;
  }

  /** After deleteByUserId, none of the user's former tokens is found. */
  lemma DeletedTokensNotFound(table: Table, userId: Uuid, token: string)
    requires WellFormed(table)
    requires HasToken(table, token) && RowWithToken(table, token).userId == userId
    ensures !HasToken(DeleteByUser(table, userId), token)
  {
    var r := RowWithToken(table, token);
    var rest := DeleteByUser(table, userId);
    forall id | id in rest ensures rest[id].token != token {
      assert table[id].token == token ==> id == r.id;
    }
  }

  /** The `refresh_tokens` repository together with the service's four operations. */
  class RefreshTokenStore {
    var table: Table

    ghost predicate Valid()
      reads this
    {
      WellFormed(table)
    }

    constructor ()
      ensures Valid() && table == map[]
    {
      table := map[];
    }

    /**
     * createRefreshToken: saves a new row for `userId` with a fresh id and token
     * (UUID.randomUUID() in the source) expiring seven days after `now`.
     */
    method CreateRefreshToken(userId: Uuid, id: Uuid, token: string, now: Millis) returns (r: RefreshToken)
      requires Valid()
      requires id !in table && !HasToken(table, token)
      modifies this
      ensures Valid()
      ensures r == NewSession(id, userId, token, now)
      ensures table == old(table)[id := r]
    {
      r := RefreshToken(id, userId, token, now + REFRESH_TTL_MS);
      table := table[id := r];
    }

    /** findByToken: the row whose token is exactly `token`, if there is one; the table is untouched. */
    method FindByToken(token: string) returns (r: Option<RefreshToken>)
      requires Valid()
      ensures r.Some? <==> HasToken(table, token)
      ensures r.Some? ==> r.value.id in table && table[r.value.id] == r.value && r.value.token == token
      ensures r.Some? ==> r.value == RowWithToken(table, token)
    {
      if HasToken(table, token) {
        var id :| id in table && table[id].token == token;
        r := Some(table[id]);
      } else {
        r := None;
      }
    }

    /**
     * verifyExpiration: a row whose expiry lies strictly before `now` is deleted
     * and the call throws; otherwise the row is returned and nothing changes.
     */
    method VerifyExpiration(r: RefreshToken, now: Millis) returns (result: Result<RefreshToken, Exception>)
      requires Valid()
      modifies this
      ensures Valid()
      ensures r.expiryDate < now ==> result == Failure(SessionExpired) && table == old(table) - {r.id}
      ensures now <= r.expiryDate ==> result == Success(r) && table == old(table)
    {
      if r.expiryDate < now {
        table := table - {r.id};
        result := Failure(SessionExpired);
      } else {
        result := Success(r);
      }
    }

    /** deleteByUserId: removes every row of `userId` and keeps all others. */
    method DeleteByUserId(userId: Uuid)
      requires Valid()
      modifies this
      ensures Valid()
      ensures table == DeleteByUser(old(table), userId)
    {
      table := DeleteByUser(table, userId);
    }
  }
}
