/**
 * The friend handlers (backend/routes/friends.ts): sending a request (with the
 * automatic acceptance of a reverse request), accepting, denying, removing,
 * listing requests, searching for a user and the leaderboard with its clean-up
 * of the friend list. Each handler is a method on the user store; the user id
 * is the one the token middleware attached.
 */
module Friends {
  import opened Wrappers
  import opened Http
  import opened Seqs
  import opened Text
  import opened UserModel

  // ---------------------------------------------------------------------------
  // List operations

  function Other(name: string): string -> bool {
    (s: string) => s != name
  }

  /** `list.filter(u => u !== name)`. */
  function Without(xs: seq<string>, name: string): (r: seq<string>)
    ensures |r| <= |xs|
  {
    Filter(xs, Other(name))
  }

  /** Removing a name drops every copy of it and keeps every other name. */
  lemma WithoutMembers(xs: seq<string>, name: string)
    ensures name !in Without(xs, name)
    ensures forall y :: y in Without(xs, name) <==> y in xs && y != name
  {
    FilterMembers(xs, Other(name));
  }

  /** `list.includes(name) ? list : [...list, name]`. */
  function AddIfAbsent(xs: seq<string>, name: string): (r: seq<string>)
    ensures name in r
    ensures forall y :: y in r <==> y in xs || y == name
    ensures name in xs ==> r == xs
    ensures name !in xs ==> r == xs + [name] && multiset(r)[name] == 1
  {
    if name in xs then xs else xs + [name]
  }

  /** The number of times a name appears in a list. */
  function Occurrences(xs: seq<string>, name: string): nat {
    multiset(xs)[name]
  }

  // ---------------------------------------------------------------------------
  // Document changes

  datatype FriendMsg = RequestSent | AutoAccepted | RequestAccepted | RequestDenied | FriendRemoved

  /** The requester's side of an automatic acceptance: the target becomes a friend, its request is cleared. */
  function AutoAcceptMine(me: User, target: string): User {
    me.(friends := AddIfAbsent(me.friends, target), friendRequests := Without(me.friendRequests, target))
  }

  /** The target's side of an automatic acceptance or of an acceptance: the requester is added once, its request cleared. */
  function AcceptTheirs(them: User, me: string): User {
    them.(friends := AddIfAbsent(them.friends, me), friendRequests := Without(them.friendRequests, me))
  }

  /** The accepting side of `/accept`: the requester is appended without an `includes` check. */
  function AcceptMine(me: User, requester: string): User {
    me.(friends := me.friends + [requester], friendRequests := Without(me.friendRequests, requester))
  }

  /** A normal send: the sender's name is appended to the target's requests. */
  function WithRequestFrom(them: User, me: string): User {
    them.(friendRequests := them.friendRequests + [me])
  }

  /**
   * After an automatic acceptance each user lists the other as a friend, the
   * requester exactly once more than before (it was absent), and neither holds a
   * request from the other. Nothing but the two lists changes.
   */
  lemma AutoAcceptSymmetric(me: User, them: User)
    requires them.username !in me.friends
    ensures var m := AutoAcceptMine(me, them.username);
      var t := AcceptTheirs(them, me.username);
      them.username in m.friends && me.username in t.friends &&
      Occurrences(m.friends, them.username) == 1 &&
      (me.username !in them.friends ==> Occurrences(t.friends, me.username) == 1) &&
      them.username !in m.friendRequests && me.username !in t.friendRequests &&
      m == me.(friends := m.friends, friendRequests := m.friendRequests) &&
      t == them.(friends := t.friends, friendRequests := t.friendRequests)
  {
    WithoutMembers(me.friendRequests, them.username);
    WithoutMembers(them.friendRequests, me.username);
  }

  /**
   * After `/accept` both users list each other as friends and the request between
   * them is gone in both directions.
   */
  lemma AcceptSymmetric(me: User, them: User)
    ensures var m := AcceptMine(me, them.username);
      var t := AcceptTheirs(them, me.username);
      them.username in m.friends && me.username in t.friends &&
      them.username !in m.friendRequests && me.username !in t.friendRequests &&
      Occurrences(m.friends, them.username) == Occurrences(me.friends, them.username) + 1
  {
    WithoutMembers(me.friendRequests, them.username);
    WithoutMembers(them.friendRequests, me.username);
  }

  /**
   * `/accept` appends unconditionally: an accepter who already lists the requester
   * (possible once the requester's leaderboard dropped the accepter while the
   * accepter was banned) ends up listing it twice.
   */
  lemma AcceptCanListTwice(me: User, them: User)
    requires them.username in me.friends
    ensures Occurrences(AcceptMine(me, them.username).friends, them.username) >= 2
  {
  }

  /** Dropping a friend on both sides leaves neither listing the other, and keeps the other friends. */
  lemma RemoveSymmetric(me: User, them: User)
    ensures me.username !in Without(them.friends, me.username)
    ensures them.username !in Without(me.friends, them.username)
    ensures forall y :: y in Without(me.friends, them.username) <==> y in me.friends && y != them.username
  {
    WithoutMembers(them.friends, me.username);
    WithoutMembers(me.friends, them.username);
  }

  lemma SaveUser(users: map<UserId, User>, k: UserId, u: User)
    requires WellFormedUsers(users) && k in users
    requires u.user_id == k && u.username == users[k].username && u.email == users[k].email
    requires u.username !in u.friends && u.username !in u.friendRequests
    ensures WellFormedUsers(users[k := u])
  {
    ReplaceKeepsWellFormed(users, k, u);
  }

  // ---------------------------------------------------------------------------
  // Handlers

  /**
   * POST `/request`. Rejected with nothing saved: no name (400), unknown current user
   * (404), oneself (400), unknown target (404), already a friend (400), a request of
   * ours already pending at the target (400). A pending request from the target is
   * accepted on both sides; otherwise our name is appended to the target's requests.
   */
  method SendRequest(db: UserStore, userId: UserId, username: string) returns (res: Response<FriendMsg>)
    requires db.Valid()
    modifies db
    ensures db.Valid()
    ensures username == "" || userId !in old(db.users) ==> db.users == old(db.users)
    ensures username == "" ==> res == Reject(BadRequest)
    ensures username != "" && userId !in old(db.users) ==> res == Reject(NotFound)
    ensures username != "" && userId in old(db.users) ==>
      var me := old(db.users)[userId];
      var target := FindByUsername(old(db.users), username);
      (me.username == username ==> res == Reject(BadRequest) && db.users == old(db.users)) &&
      (me.username != username && target.None? ==> res == Reject(NotFound) && db.users == old(db.users)) &&
      (me.username != username && target.Some? ==>
        var them := old(db.users)[target.value];
        (username in me.friends ==> res == Reject(BadRequest) && db.users == old(db.users)) &&
        (username !in me.friends && me.username in them.friendRequests ==>
          res == Reject(BadRequest) && db.users == old(db.users)) &&
        (username !in me.friends && me.username !in them.friendRequests && username in me.friendRequests ==>
          res == Reply(Ok, AutoAccepted) &&
          db.users == old(db.users)[userId := AutoAcceptMine(me, username)][target.value := AcceptTheirs(them, me.username)]) &&
        (username !in me.friends && me.username !in them.friendRequests && username !in me.friendRequests ==>
          res == Reply(Ok, RequestSent) &&
          db.users == old(db.users)[target.value := WithRequestFrom(them, me.username)]))
  {
    if username == "" {
      return Reject(BadRequest);
    }
    if userId !in db.users {
      return Reject(NotFound);
    }
    var me := db.users[userId];
    if me.username == username {
      return Reject(BadRequest);
    }
    var found := FindByUsername(db.users, username);
    if found.None? {
      return Reject(NotFound);
    }
    var targetId := found.value;
    var them := db.users[targetId];
    if username in me.friends {
      return Reject(BadRequest);
    }
    if me.username in them.friendRequests {
      return Reject(BadRequest);
    }
    assert targetId != userId;
    if username in me.friendRequests {
      var mine := AutoAcceptMine(me, username);
      var theirs := AcceptTheirs(them, me.username);
      WithoutMembers(me.friendRequests, username);
      WithoutMembers(them.friendRequests, me.username);
      SaveUser(db.users, userId, mine);
      db.users := db.users[userId := mine];
      SaveUser(db.users, targetId, theirs);
      db.users := db.users[targetId := theirs];
      return Reply(Ok, AutoAccepted);
    }
    var theirs := WithRequestFrom(them, me.username);
    SaveUser(db.users, targetId, theirs);
    db.users := db.users[targetId := theirs];
    return Reply(Ok, RequestSent);
  }

  /** GET `/requests`: the current user's incoming requests, or 404. */
  method ListRequests(db: UserStore, userId: UserId) returns (res: Response<seq<string>>)
    ensures userId !in db.users ==> res == Reject(NotFound)
    ensures userId in db.users ==> res == Reply(Ok, db.users[userId].friendRequests)
  {
    if userId !in db.users {
      return Reject(NotFound);
    }
    return Reply(Ok, db.users[userId].friendRequests);
  }

  /**
   * POST `/accept`. No name (400), unknown current user or target (404), or no pending
   * request from the target (400) saves nothing. Otherwise both documents are saved
   * with each other as friends and the requests between them cleared.
   */
  method AcceptRequest(db: UserStore, userId: UserId, username: string) returns (res: Response<FriendMsg>)
    requires db.Valid()
    modifies db
    ensures db.Valid()
    ensures username == "" ==> res == Reject(BadRequest) && db.users == old(db.users)
    ensures username != "" && (userId !in old(db.users) || FindByUsername(old(db.users), username).None?) ==>
      res == Reject(NotFound) && db.users == old(db.users)
    ensures username != "" && userId in old(db.users) && FindByUsername(old(db.users), username).Some? ==>
      var me := old(db.users)[userId];
      var targetId := FindByUsername(old(db.users), username).value;
      (username !in me.friendRequests ==> res == Reject(BadRequest) && db.users == old(db.users)) &&
      (username in me.friendRequests ==>
        res == Reply(Ok, RequestAccepted) &&
        db.users == old(db.users)[userId := AcceptMine(me, username)]
                                 [targetId := AcceptTheirs(old(db.users)[targetId], me.username)])
  {
    if username == "" {
      return Reject(BadRequest);
    }
    if userId !in db.users {
      return Reject(NotFound);
    }
    var me := db.users[userId];
    var found := FindByUsername(db.users, username);
    if found.None? {
      return Reject(NotFound);
    }
    var targetId := found.value;
    var them := db.users[targetId];
    if username !in me.friendRequests {
      return Reject(BadRequest);
    }
    assert me.username != username;
    var mine := AcceptMine(me, username);
    var theirs := AcceptTheirs(them, me.username);
    WithoutMembers(me.friendRequests, username);
    WithoutMembers(them.friendRequests, me.username);
    SaveUser(db.users, userId, mine);
    db.users := db.users[userId := mine];
    SaveUser(db.users, targetId, theirs);
    db.users := db.users[targetId := theirs];
    return Reply(Ok, RequestAccepted);
  }

  /**
   * POST `/deny`: no name (400), unknown user (404) or no such request (400) saves
   * nothing; otherwise only the current user's requests lose that name.
   */
  method DenyRequest(db: UserStore, userId: UserId, username: string) returns (res: Response<FriendMsg>)
    requires db.Valid()
    modifies db
    ensures db.Valid()
    ensures username == "" ==> res == Reject(BadRequest) && db.users == old(db.users)
    ensures username != "" && userId !in old(db.users) ==> res == Reject(NotFound) && db.users == old(db.users)
    ensures username != "" && userId in old(db.users) && username !in old(db.users)[userId].friendRequests ==>
      res == Reject(BadRequest) && db.users == old(db.users)
    ensures username != "" && userId in old(db.users) && username in old(db.users)[userId].friendRequests ==>
      var me := old(db.users)[userId];
      res == Reply(Ok, RequestDenied) &&
      db.users == old(db.users)[userId := me.(friendRequests := Without(me.friendRequests, username))]
  {
    if username == "" {
      return Reject(BadRequest);
    }
    if userId !in db.users {
      return Reject(NotFound);
    }
    var me := db.users[userId];
    if username !in me.friendRequests {
      return Reject(BadRequest);
    }
    var mine := me.(friendRequests := Without(me.friendRequests, username));
    WithoutMembers(me.friendRequests, username);
    SaveUser(db.users, userId, mine);
    db.users := db.users[userId := mine];
    return Reply(Ok, RequestDenied);
  }

  /**
   * POST `/remove`: no name (400), unknown user or target (404), or not a friend (400)
   * saves nothing; otherwise each side's friends lose the other's name.
   */
  method RemoveFriend(db: UserStore, userId: UserId, username: string) returns (res: Response<FriendMsg>)
    requires db.Valid()
    modifies db
    ensures db.Valid()
    ensures username == "" ==> res == Reject(BadRequest) && db.users == old(db.users)
    ensures username != "" && (userId !in old(db.users) || FindByUsername(old(db.users), username).None?) ==>
      res == Reject(NotFound) && db.users == old(db.users)
    ensures username != "" && userId in old(db.users) && FindByUsername(old(db.users), username).Some? ==>
      var me := old(db.users)[userId];
      var targetId := FindByUsername(old(db.users), username).value;
      var them := old(db.users)[targetId];
      (username !in me.friends ==> res == Reject(BadRequest) && db.users == old(db.users)) &&
      (username in me.friends ==>
        res == Reply(Ok, FriendRemoved) &&
        db.users == old(db.users)[userId := me.(friends := Without(me.friends, username))]
                                 [targetId := them.(friends := Without(them.friends, me.username))])
  {
    if username == "" {
      return Reject(BadRequest);
    }
    if userId !in db.users {
      return Reject(NotFound);
    }
    var me := db.users[userId];
    var found := FindByUsername(db.users, username);
    if found.None? {
      return Reject(NotFound);
    }
    var targetId := found.value;
    var them := db.users[targetId];
    if username !in me.friends {
      return Reject(BadRequest);
    }
    var mine := me.(friends := Without(me.friends, username));
    var theirs := them.(friends := Without(them.friends, me.username));
    WithoutMembers(me.friends, username);
    WithoutMembers(them.friends, me.username);
    SaveUser(db.users, userId, mine);
    db.users := db.users[userId := mine];
    SaveUser(db.users, targetId, theirs);
    db.users := db.users[targetId := theirs];
    return Reply(Ok, FriendRemoved);
  }

  // ---------------------------------------------------------------------------
  // Search

  datatype SearchResult =
    | NoSuchUser
    | Found(username: string, isFriend: bool, hasIncomingRequest: bool, hasOutgoingRequest: bool,
            canSendRequest: bool)

  /** The case-insensitive anchored match of the search pattern, on ASCII letters. */
  predicate MatchesIgnoringCase(name: string, query: string) {
    ToLower(name) == ToLower(query)
  }

  /**
   * GET `/search`: an empty query (400), an unknown current user (404) or one's own name
   * in any letter case (400) are refused. Otherwise a user whose name matches ignoring
   * case is reported with the three relation flags, and a request may be sent exactly
   * when none of them holds.
   */
  method Search(db: UserStore, userId: UserId, query: string) returns (res: Response<SearchResult>)
    requires db.Valid()
    ensures query == "" ==> res == Reject(BadRequest)
    ensures query != "" && userId !in db.users ==> res == Reject(NotFound)
    ensures query != "" && userId in db.users && MatchesIgnoringCase(db.users[userId].username, query) ==>
      res == Reject(BadRequest)
    ensures query != "" && userId in db.users && !MatchesIgnoringCase(db.users[userId].username, query) ==>
      res.Reply? && res.status == Ok &&
      (res.body == NoSuchUser <==> forall k :: k in db.users ==> !MatchesIgnoringCase(db.users[k].username, query))
    ensures res.Reply? && res.body.Found? ==>
      var me := db.users[userId];
      var r := res.body;
      (exists k :: k in db.users && db.users[k].username == r.username && MatchesIgnoringCase(r.username, query)) &&
      (r.isFriend <==> r.username in me.friends) &&
      (r.hasIncomingRequest <==> r.username in me.friendRequests) &&
      (r.hasOutgoingRequest <==> exists k :: k in db.users && db.users[k].username == r.username &&
                                            me.username in db.users[k].friendRequests) &&
      (r.canSendRequest <==> !r.isFriend && !r.hasIncomingRequest && !r.hasOutgoingRequest)
  {
    if query == "" {
      return Reject(BadRequest);
    }
    if userId !in db.users {
      return Reject(NotFound);
    }
    var me := db.users[userId];
    if MatchesIgnoringCase(me.username, query) {
      return Reject(BadRequest);
    }
    if !exists k :: k in db.users && MatchesIgnoringCase(db.users[k].username, query) {
      return Reply(Ok, NoSuchUser);
    }
    var targetId :| targetId in db.users && MatchesIgnoringCase(db.users[targetId].username, query);
    var name := db.users[targetId].username;
    var sentRequests := set k | k in db.users && me.username in db.users[k].friendRequests :: db.users[k].username;
    var isFriend := name in me.friends;
    var hasIncoming := name in me.friendRequests;
    var hasOutgoing := name in sentRequests;
    return Reply(Ok, Found(name, isFriend, hasIncoming, hasOutgoing, !isFriend && !hasIncoming && !hasOutgoing));
  }

  /** Under unique usernames, an outgoing request to the found user is one pending in that user's own list. */
  lemma OutgoingMeansPendingAtTarget(users: map<UserId, User>, me: User, k: UserId)
    requires WellFormedUsers(users) && k in users
    ensures (exists j :: j in users && users[j].username == users[k].username && me.username in users[j].friendRequests)
            <==> me.username in users[k].friendRequests
  {
  }

  // ---------------------------------------------------------------------------
  // Leaderboard

  datatype LeaderRow = LeaderRow(username: string, total_points: int, current_streak: int, highest_streak: int)

  function Row(u: User): LeaderRow {
    LeaderRow(u.username, u.total_points, u.current_streak, u.highest_streak)
  }

  /** The users the leaderboard query selects: ourselves and our friends, not banned. */
  predicate Selected(users: map<UserId, User>, me: User, k: UserId)
    requires k in users
  {
    (users[k].username == me.username || users[k].username in me.friends) && !users[k].isBanned
  }

  /**
   * What the database answers to the query: each selected user once, none other, by
   * `total_points` from highest to lowest (the order among equal points is the database's).
   */
  predicate IsRanking(users: map<UserId, User>, me: User, ranked: seq<UserId>) {
    (forall i :: 0 <= i < |ranked| ==> ranked[i] in users && Selected(users, me, ranked[i])) &&
    (forall k :: k in users && Selected(users, me, k) ==> k in ranked) &&
    (forall i, j :: 0 <= i < j < |ranked| ==> ranked[i] != ranked[j]) &&
    (forall i, j :: 0 <= i < j < |ranked| ==> users[ranked[i]].total_points >= users[ranked[j]].total_points)
  }

  function Rows(users: map<UserId, User>, ranked: seq<UserId>): (rows: seq<LeaderRow>)
    requires forall i :: 0 <= i < |ranked| ==> ranked[i] in users
    ensures |rows| == |ranked| && forall i :: 0 <= i < |ranked| ==> rows[i] == Row(users[ranked[i]])
  {
    seq(|ranked|, i requires 0 <= i < |ranked| => Row(users[ranked[i]]))
  }

  /** The names on the board other than our own: the friends that still count. */
  function ValidFriendNames(rows: seq<LeaderRow>, me: string): set<string> {
    set i | 0 <= i < |rows| && rows[i].username != me :: rows[i].username
  }

  function InSet(names: set<string>): string -> bool {
    (s: string) => s in names
  }

  /**
   * GET `/leaderboard`, given the database's ranking. An unknown user is 404. The board
   * lists the selected users by points, highest first, banned users never among them.
   * When some friend is missing from the board (deleted or banned) the friend list is
   * saved without those names, the others in their order; otherwise nothing is saved.
   */
  method Leaderboard(db: UserStore, userId: UserId, ranked: seq<UserId>) returns (res: Response<seq<LeaderRow>>)
    requires db.Valid()
    requires userId in db.users ==> IsRanking(db.users, db.users[userId], ranked)
    modifies db
    ensures db.Valid()
    ensures userId !in old(db.users) ==> res == Reject(NotFound) && db.users == old(db.users)
    ensures userId in old(db.users) ==>
      var me := old(db.users)[userId];
      var rows := Rows(old(db.users), ranked);
      var valid := ValidFriendNames(rows, me.username);
      res == Reply(Ok, rows) &&
      (forall i :: 0 <= i < |rows| ==> !old(db.users)[ranked[i]].isBanned) &&
      (forall i, j :: 0 <= i < j < |rows| ==> rows[i].total_points >= rows[j].total_points) &&
      ((forall f :: f in me.friends ==> f in valid) ==> db.users == old(db.users)) &&
      ((exists f :: f in me.friends && f !in valid) ==>
        db.users == old(db.users)[userId := me.(friends := Filter(me.friends, InSet(valid)))])
  {
    if userId !in db.users {
      return Reject(NotFound);
    }
    var me := db.users[userId];
    var rows := Rows(db.users, ranked);
    var valid := ValidFriendNames(rows, me.username);
    var invalid := set f | f in me.friends && f !in valid;
    if invalid != {} {
      var mine := me.(friends := Filter(me.friends, InSet(valid)));
      FilterMembers(me.friends, InSet(valid));
      SaveUser(db.users, userId, mine);
      db.users := db.users[userId := mine];
    } else {
      forall f | f in me.friends ensures f in valid {
        assert f !in invalid;
      }
    }
    return Reply(Ok, rows);
  }

  /**
   * The clean-up keeps exactly the friends who still appear on the board: they are
   * present, not banned, and not ourselves.
   */
  lemma CleanupKeepsListedFriends(users: map<UserId, User>, me: User, ranked: seq<UserId>, f: string)
    requires IsRanking(users, me, ranked)
    requires f in me.friends && f != me.username
    ensures f in ValidFriendNames(Rows(users, ranked), me.username) <==>
      exists k :: k in users && users[k].username == f && !users[k].isBanned
  {
    var rows := Rows(users, ranked);
    if exists k :: k in users && users[k].username == f && !users[k].isBanned {
      var k :| k in users && users[k].username == f && !users[k].isBanned;
      assert Selected(users, me, k);
      var i :| 0 <= i < |ranked| && ranked[i] == k;
      assert rows[i].username == f;
    }
    if f in ValidFriendNames(rows, me.username) {
      var i :| 0 <= i < |rows| && rows[i].username != me.username && rows[i].username == f;
      assert users[ranked[i]].username == f && !users[ranked[i]].isBanned;
    }
  }
}
