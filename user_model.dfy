/**
 * The `User` document (backend/models/User.ts) together with the fields the
 * route handlers read and write although the schema does not declare them,
 * and the in-memory user collection that stands for the database.
 */
module UserModel {
  import opened Wrappers

  /** The key of a user document: its `user_id` (which also stands for the document `_id`). */
  type UserId = string

  datatype Theme = Light | Dark

  datatype Badge = Badge(name: string, earned_on: string)

  datatype User = User(
    user_id: string,
    username: string,
    email: string,
    password_hash: string,
    join_date: Option<string>,
    timezone: Option<string>,
    preferred_theme: Theme,
    total_points: int,
    current_streak: int,
    highest_streak: int,
    total_tasks_completed: int,
    average_tasks_per_day: real,
    daily_completion_summary: map<string, int>,
    badges: seq<Badge>,
    // read or written by the handlers, absent from the schema; each carries its default
    last_rollover_date: Option<string>,
    total_tasks_created: int,
    friends: seq<string>,
    friendRequests: seq<string>,
    isBanned: bool,
    warnCount: int,
    isDeleted: bool,
    adminLevel: int,
    isAdmin: bool)

  /** The schema's `required` validators, checked when a document is saved. */
  predicate HasRequiredFields(u: User) {
    u.user_id != "" && u.username != "" && u.email != "" && u.password_hash != ""
  }

  /** A document built from the required fields: every other field takes its schema default. */
  function NewUser(userId: string, username: string, email: string, passwordHash: string,
                   joinDate: Option<string>): (u: User)
    ensures u.user_id == userId && u.username == username && u.email == email
    ensures u.password_hash == passwordHash && u.join_date == joinDate
  {
    User(userId, username, email, passwordHash, joinDate, None, Light,
         0, 0, 0, 0, 0.0, map[], [],
         None, 0, [], [], false, 0, false, 0, false)
  }

  /** The counters a fresh document starts from. */
  predicate HasDefaultCounters(u: User) {
    u.total_points == 0 && u.current_streak == 0 && u.highest_streak == 0 &&
    u.total_tasks_completed == 0 && u.average_tasks_per_day == 0.0 &&
    u.daily_completion_summary == map[] && u.badges == [] && u.preferred_theme == Light
  }

  /** The streak invariant the rollover keeps, together with non-negative counters. */
  predicate StreakInvariant(u: User) {
    0 <= u.current_streak <= u.highest_streak
  }

  lemma NewUserDefaults(userId: string, username: string, email: string, passwordHash: string,
                        joinDate: Option<string>)
    ensures HasDefaultCounters(NewUser(userId, username, email, passwordHash, joinDate))
    ensures StreakInvariant(NewUser(userId, username, email, passwordHash, joinDate))
    ensures var u := NewUser(userId, username, email, passwordHash, joinDate);
      u.friends == [] && u.friendRequests == [] && !u.isBanned && u.warnCount == 0 &&
      !u.isDeleted && u.adminLevel == 0 && !u.isAdmin && u.last_rollover_date == None
    ensures HasRequiredFields(NewUser(userId, username, email, passwordHash, joinDate)) <==>
      userId != "" && username != "" && email != "" && passwordHash != ""
  {
  }

  /**
   * A collection the unique indexes allow: each document is stored under its own
   * `user_id`, usernames and emails are unique, and nobody lists themselves as a
   * friend or as a requester.
   */
  predicate WellFormedUsers(users: map<UserId, User>) {
    (forall k :: k in users ==> users[k].user_id == k) &&
    (forall a, b :: a in users && b in users && users[a].username == users[b].username ==> a == b) &&
    (forall a, b :: a in users && b in users && users[a].email == users[b].email ==> a == b) &&
    (forall k :: k in users ==> users[k].username !in users[k].friends) &&
    (forall k :: k in users ==> users[k].username !in users[k].friendRequests)
  }

  /** `User.findOne({ username })`: the unique document with that exact username. */
  function FindByUsername(users: map<UserId, User>, name: string): (r: Option<UserId>)
    requires WellFormedUsers(users)
    ensures r.Some? ==> r.value in users && users[r.value].username == name
    ensures r.None? <==> forall k :: k in users ==> users[k].username != name
  {
    if exists k :: k in users && users[k].username == name then
      var k :| k in users && users[k].username == name; Some(k)
    else None
  }

  /** Storing a document under its own key keeps the collection well formed when its identity fields are kept. */
  lemma ReplaceKeepsWellFormed(users: map<UserId, User>, k: UserId, u: User)
    requires WellFormedUsers(users) && k in users
    requires u.user_id == k && u.username == users[k].username && u.email == users[k].email
    requires u.username !in u.friends && u.username !in u.friendRequests
    ensures WellFormedUsers(users[k := u])
  {
  }

  /** The user collection the handlers read and save. */
  class UserStore {
    var users: map<UserId, User>

    ghost predicate Valid()
      reads this
    {
      WellFormedUsers(users)
    }

    constructor ()
      ensures Valid() && users == map[]
    {
      users := map[];
    }
  }
}
