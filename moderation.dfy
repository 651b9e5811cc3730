/**
 * The user-management router (backend/routes/userRoutes.ts): listing every user
 * without the password hash, the manual ban toggle, warnings with the automatic
 * ban at five, and deletion. Its routes carry no authentication middleware, so no
 * token is involved; neither server file mounts the router. Users are looked up by
 * their `user_id`, which stands for the document `_id`.
 */
module Moderation {
  import opened Http
  import opened UserModel

  /** The number of warnings at which a user is banned automatically. */
  const WarnLimit: int := 5

  /** `select('-password_hash')`: the document with its hash left out (shown as empty). */
  function Redact(u: User): (v: User)
    ensures v.password_hash == ""
    ensures v == u.(password_hash := v.password_hash)
  {
    u.(password_hash := "")
  }

  /** The listing hides the hash: documents that differ only in it list the same. */
  lemma RedactHidesHash(u: User, w: User)
    requires u.(password_hash := w.password_hash) == w
    ensures Redact(u) == Redact(w)
  {
  }

  /** `user.isBanned = !user.isBanned`. */
  function ToggleBan(u: User): (v: User)
    ensures v.isBanned != u.isBanned
    ensures v == u.(isBanned := v.isBanned)
  {
    u.(isBanned := !u.isBanned)
  }

  /** Toggling twice restores the document. */
  lemma ToggleBanTwice(u: User)
    ensures ToggleBan(ToggleBan(u)) == u
  {
  }

  /** One warning: the count goes up by one and reaching the limit bans; a ban is never lifted. */
  function Warn(u: User): (v: User)
    ensures v.warnCount == u.warnCount + 1
    ensures v.isBanned <==> u.isBanned || v.warnCount >= WarnLimit
    ensures v == u.(warnCount := v.warnCount, isBanned := v.isBanned)
  {
    var count := u.warnCount + 1;
    if count >= WarnLimit then u.(warnCount := count, isBanned := true)
    else u.(warnCount := count)
  }

  /** `n` warnings in a row. */
  function WarnTimes(u: User, n: nat): User
    decreases n
  {
    if n == 0 then u else Warn(WarnTimes(u, n - 1))
  }

  /**
   * After `n` warnings the count has grown by `n`, and a user whose count reaches
   * the limit is banned, however the count was reached.
   */
  lemma {:induction false} WarnTimesBans(u: User, n: nat)
    ensures WarnTimes(u, n).warnCount == u.warnCount + n
    ensures u.isBanned ==> WarnTimes(u, n).isBanned
    ensures n > 0 && u.warnCount + n >= WarnLimit ==> WarnTimes(u, n).isBanned
    ensures WarnTimes(u, n) == u.(warnCount := u.warnCount + n, isBanned := WarnTimes(u, n).isBanned)
    decreases n
  {
    if n > 0 {
      WarnTimesBans(u, n - 1);
    }
  }

  /** Starting from no warnings, the fifth warning is the one that bans an unbanned user. */
  lemma FifthWarningBans(u: User)
    requires u.warnCount == 0 && !u.isBanned
    ensures !WarnTimes(u, 4).isBanned
    ensures WarnTimes(u, 5).isBanned
  {
    assert WarnTimes(u, 1) == Warn(u);
    assert WarnTimes(u, 2) == Warn(WarnTimes(u, 1));
    assert WarnTimes(u, 3) == Warn(WarnTimes(u, 2));
    assert WarnTimes(u, 4) == Warn(WarnTimes(u, 3));
  }

  /** GET `/`: every user, with its hash left out. */
  method ListUsers(db: UserStore) returns (res: Response<map<UserId, User>>)
    ensures res.Reply? && res.status == Ok
    ensures res.body.Keys == db.users.Keys
    ensures forall k :: k in res.body ==> res.body[k] == Redact(db.users[k])
  {
    var listed := map k | k in db.users :: Redact(db.users[k]);
    return Reply(Ok, listed);
  }

  /** POST `/:id/ban`: an unknown id is 404; otherwise the toggled document is saved and sent back. */
  method Ban(db: UserStore, id: UserId) returns (res: Response<User>)
    requires db.Valid()
    modifies db
    ensures db.Valid()
    ensures id !in old(db.users) ==> res == Reject(NotFound) && db.users == old(db.users)
    ensures id in old(db.users) ==>
      res == Reply(Ok, ToggleBan(old(db.users)[id])) && db.users == old(db.users)[id := ToggleBan(old(db.users)[id])]
  {
    if id !in db.users {
      return Reject(NotFound);
    }
    var user := ToggleBan(db.users[id]);
    ReplaceKeepsWellFormed(db.users, id, user);
    db.users := db.users[id := user];
    return Reply(Ok, user);
  }

  /** POST `/:id/warn`: an unknown id is 404; otherwise the warned document is saved and sent back. */
  method WarnUser(db: UserStore, id: UserId) returns (res: Response<User>)
    requires db.Valid()
    modifies db
    ensures db.Valid()
    ensures id !in old(db.users) ==> res == Reject(NotFound) && db.users == old(db.users)
    ensures id in old(db.users) ==>
      res == Reply(Ok, Warn(old(db.users)[id])) && db.users == old(db.users)[id := Warn(old(db.users)[id])]
  {
    if id !in db.users {
      return Reject(NotFound);
    }
    var user := Warn(db.users[id]);
    ReplaceKeepsWellFormed(db.users, id, user);
    db.users := db.users[id := user];
    return Reply(Ok, user);
  }

  /** DELETE `/:id`: an unknown id is 404; otherwise the document is removed for good. */
  method Delete(db: UserStore, id: UserId) returns (res: Response<string>)
    requires db.Valid()
    modifies db
    ensures db.Valid()
    ensures id !in old(db.users) ==> res == Reject(NotFound) && db.users == old(db.users)
    ensures id in old(db.users) ==> res == Reply(Ok, "User deleted") && db.users == old(db.users) - {id}
  {
    if id !in db.users {
      return Reject(NotFound);
    }
    db.users := db.users - {id};
    return Reply(Ok, "User deleted");
  }
}
