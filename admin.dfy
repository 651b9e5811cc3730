/**
 * The admin router (backend/routes/adminRoutes.ts): the level-checking token
 * middleware, the four segregated user listings and the creation of an admin
 * account. Token verification, the uuid, bcrypt and the clock are foreign: their
 * results are parameters.
 */
module AdminRoutes {
  import opened Wrappers
  import opened Http
  import opened Auth
  import opened UserModel
  import Moderation

  datatype AdminOutcome = AdminDenied(status: Status) | AdminGranted(userId: Option<string>, level: int)

  /** `decoded.user?.adminLevel || 0`: a missing level counts as 0. */
  function EffectiveLevel(c: Claims): int {
    c.adminLevel.GetOr(0)
  }

  /**
   * `adminAuthMiddleware(requiredLevel)`: no token or a token that fails verification
   * is 401, a level below the required one is 403, and otherwise the request proceeds
   * with the payload's `user.id` and its level.
   */
  function AdminAuthenticate(t: Token, requiredLevel: int): (r: AdminOutcome)
    ensures (t.NoToken? || t.Unverifiable?) ==> r == AdminDenied(Unauthorized)
    ensures t.Verified? && EffectiveLevel(t.claims) < requiredLevel ==> r == AdminDenied(Forbidden)
    ensures r.AdminGranted? <==> t.Verified? && EffectiveLevel(t.claims) >= requiredLevel
    ensures r.AdminGranted? ==> r.level >= requiredLevel && r.userId == t.claims.userId
  {
    match t
    case NoToken => AdminDenied(Unauthorized)
    case Unverifiable => AdminDenied(Unauthorized)
    case Verified(c) =>
      if EffectiveLevel(c) < requiredLevel then AdminDenied(Forbidden)
      else AdminGranted(c.userId, EffectiveLevel(c))
  }

  /** A level-2 grant passes every level-1 check, and a payload without a level passes none. */
  lemma AdminLevelsNest(t: Token)
    ensures AdminAuthenticate(t, 2).AdminGranted? ==> AdminAuthenticate(t, 1).AdminGranted?
    ensures t.Verified? && t.claims.adminLevel.None? ==> AdminAuthenticate(t, 1) == AdminDenied(Forbidden)
  {
  }

  // ---------------------------------------------------------------------------
  // Listings

  /** The four listings: current or deleted, standard users (level 0) or admins (level above 0). */
  datatype Listing = CurrentUsers | DeletedUsers | CurrentAdmins | DeletedAdmins

  /** The query filter of each listing. */
  predicate InListing(l: Listing, u: User) {
    match l
    case CurrentUsers => !u.isDeleted && u.adminLevel == 0
    case DeletedUsers => u.isDeleted && u.adminLevel == 0
    case CurrentAdmins => !u.isDeleted && u.adminLevel > 0
    case DeletedAdmins => u.isDeleted && u.adminLevel > 0
  }

  /** The level each listing's middleware demands: deleted admins are for level 2 only. */
  function RequiredLevel(l: Listing): (n: int)
    ensures n == 2 <==> l == DeletedAdmins
    ensures n == 1 || n == 2
  {
    if l == DeletedAdmins then 2 else 1
  }

  /**
   * The listings do not overlap and together hold every user whose level is not
   * negative; a user with a negative level is listed nowhere.
   */
  lemma ListingsPartition(u: User)
    ensures u.adminLevel >= 0 ==> exists l :: InListing(l, u)
    ensures forall l1, l2 :: InListing(l1, u) && InListing(l2, u) ==> l1 == l2
    ensures u.adminLevel < 0 ==> forall l :: !InListing(l, u)
  {
    if u.adminLevel >= 0 {
      if u.isDeleted {
        assert InListing(if u.adminLevel == 0 then DeletedUsers else DeletedAdmins, u);
      } else {
        assert InListing(if u.adminLevel == 0 then CurrentUsers else CurrentAdmins, u);
      }
    }
  }

  /** GET `/data/<listing>`: the middleware's answer, or the matching users without their hash. */
  method List(db: UserStore, t: Token, l: Listing) returns (res: Response<map<UserId, User>>)
    ensures AdminAuthenticate(t, RequiredLevel(l)).AdminDenied? ==>
      res == Reject(AdminAuthenticate(t, RequiredLevel(l)).status)
    ensures AdminAuthenticate(t, RequiredLevel(l)).AdminGranted? ==>
      res.Reply? && res.status == Ok &&
      (forall k :: k in res.body <==> k in db.users && InListing(l, db.users[k])) &&
      (forall k :: k in res.body ==> res.body[k] == Moderation.Redact(db.users[k]))
  {
    var auth := AdminAuthenticate(t, RequiredLevel(l));
    if auth.AdminDenied? {
      return Reject(auth.status);
    }
    var listed := map k | k in db.users && InListing(l, db.users[k]) :: Moderation.Redact(db.users[k]);
    return Reply(Ok, listed);
  }

  // ---------------------------------------------------------------------------
  // Creating an admin

  /** The `adminLevel` of the request body: absent (`undefined`/`null`), a number, or anything else. */
  datatype LevelInput = Missing | Num(n: int) | Other

  /** The answer to a successful creation. */
  datatype NewAdminInfo = NewAdminInfo(id: UserId, username: string, adminLevel: int)

  /** The document built for a new admin: the schema defaults with the admin fields and the hashed password. */
  function NewAdmin(id: UserId, username: string, email: string, hash: string, joinDate: string, level: int): (u: User)
    ensures u.user_id == id && u.username == username && u.email == email && u.password_hash == hash
    ensures u.join_date == Some(joinDate) && u.isAdmin && u.adminLevel == level
    ensures u.friends == [] && u.friendRequests == [] && !u.isBanned && !u.isDeleted && u.warnCount == 0
  {
    NewUser(id, username, email, hash, Some(joinDate)).(isAdmin := true, adminLevel := level)
  }

  /** Whether a document already uses the email or the username. */
  predicate Taken(users: map<UserId, User>, email: string, username: string) {
    exists k :: k in users && (users[k].email == email || users[k].username == username)
  }

  /**
   * POST `/create-admin`, for a level-2 admin. A missing field is 400, a level other
   * than the number 1 or 2 is 400, an email or username already in use is 400, and a
   * save the unique `user_id` index or a `required` validator refuses is 500; all of
   * those leave the store as it was. Otherwise the new admin is stored under the
   * generated id with the hashed password and the store stays well formed.
   */
  method CreateAdmin(db: UserStore, t: Token, username: string, email: string, password: string,
                     level: LevelInput, newId: UserId, hash: string, joinDate: string)
    returns (res: Response<NewAdminInfo>)
    requires db.Valid()
    modifies db
    ensures db.Valid()
    ensures res.Reject? ==> db.users == old(db.users)
    ensures AdminAuthenticate(t, 2).AdminDenied? ==> res == Reject(AdminAuthenticate(t, 2).status)
    ensures AdminAuthenticate(t, 2).AdminGranted? ==>
      ((username == "" || email == "" || password == "" || level.Missing?) ==> res == Reject(BadRequest)) &&
      ((username != "" && email != "" && password != "" && !level.Missing?) ==>
        (level != Num(1) && level != Num(2) ==> res == Reject(BadRequest)) &&
        ((level == Num(1) || level == Num(2)) ==>
          (Taken(old(db.users), email, username) ==> res == Reject(BadRequest)) &&
          (!Taken(old(db.users), email, username) && (newId in old(db.users) || newId == "" || hash == "") ==>
            res == Reject(ServerError)) &&
          (!Taken(old(db.users), email, username) && newId !in old(db.users) && newId != "" && hash != "" ==>
            res == Reply(Created, NewAdminInfo(newId, username, level.n)) &&
            db.users == old(db.users)[newId := NewAdmin(newId, username, email, hash, joinDate, level.n)])))
  {
    var auth := AdminAuthenticate(t, 2);
    if auth.AdminDenied? {
      return Reject(auth.status);
    }
    if username == "" || email == "" || password == "" || level.Missing? {
      return Reject(BadRequest);
    }
    if level != Num(1) && level != Num(2) {
      return Reject(BadRequest);
    }
    if Taken(db.users, email, username) {
      return Reject(BadRequest);
    }
    var user := NewAdmin(newId, username, email, hash, joinDate, level.n);
    if newId in db.users || !HasRequiredFields(user) {
      return Reject(ServerError);
    }
    db.users := db.users[newId := user];
    return Reply(Created, NewAdminInfo(newId, username, level.n));
  }

  /** A created admin is listed among the current admins. */
  lemma CreatedAdminIsCurrentAdmin(id: UserId, username: string, email: string, hash: string, joinDate: string, n: int)
    requires n == 1 || n == 2
    ensures InListing(CurrentAdmins, NewAdmin(id, username, email, hash, joinDate, n))
    ensures forall l :: InListing(l, NewAdmin(id, username, email, hash, joinDate, n)) ==> l == CurrentAdmins
  {
  }
}
