/** The user accounts behind the authentication routes: registration with its
    uniqueness check, the login decision, the profile read and update, and the
    watchlist each user keeps. */
module Accounts {
  import opened Wrappers
  import opened VideoModel

  type UserId = nat

  /** A stored user. `password` is whatever the user model stores; hashing
      and comparison are behind `PasswordCheck`. */
  datatype User = User(
    id: UserId,
    username: string,
    email: string,
    password: string,
    isAdmin: bool,
    watchlist: seq<VideoId>,
    watchHistory: seq<VideoId>)

  /** `comparePassword`: does the candidate match the stored password? */
  type PasswordCheck = (string, string) -> bool

  /** A signed session token. Only its subject is modelled. */
  datatype Token = Token(subject: UserId)

  /** The body of a successful registration, login or profile update. It has
      no password field. */
  datatype AuthResponse = AuthResponse(
    id: UserId, username: string, email: string, isAdmin: bool, token: Token)

  /** The profile read: the stored user without its password. */
  datatype Profile = Profile(
    id: UserId, username: string, email: string, isAdmin: bool,
    watchlist: seq<VideoId>, watchHistory: seq<VideoId>)

  const UserAlreadyExists: Failure := AppError("User already exists", 400)
  const InvalidCredentials: Failure := AppError("Invalid email or password", 401)
  const UserIdNotFound: Failure := AppError("User ID not found", 401)
  const UserNotFound: Failure := AppError("User not found", 404)
  const AlreadyInWatchlist: Failure := AppError("Video already in watchlist", 400)

  function ResponseFor(u: User): AuthResponse {
    AuthResponse(u.id, u.username, u.email, u.isAdmin, Token(u.id))
  }

  /** `findOne`: the position of the first user satisfying `p`. */
  function FindFirst(users: seq<User>, p: User -> bool): (r: Option<nat>)
    ensures r.Some? ==> r.value < |users| && p(users[r.value])
    ensures r.Some? ==> forall j :: 0 <= j < r.value ==> !p(users[j])
    ensures r.None? <==> forall j :: 0 <= j < |users| ==> !p(users[j])
  {
    if users == [] then None
    else if p(users[0]) then Some(0)
    else match FindFirst(users[1..], p)
      case None => None
      case Some(k) => Some(k + 1)
  }

  function FindById(users: seq<User>, id: UserId): (r: Option<nat>)
    ensures r.Some? ==> r.value < |users| && users[r.value].id == id
    ensures r.Some? ==> forall j :: 0 <= j < r.value ==> users[j].id != id
    ensures r.None? <==> forall j :: 0 <= j < |users| ==> users[j].id != id
  {
    FindFirst(users, (u: User) => u.id == id)
  }

  function FindByEmail(users: seq<User>, email: string): (r: Option<nat>)
    ensures r.Some? ==> r.value < |users| && users[r.value].email == email
    ensures r.Some? ==> forall j :: 0 <= j < r.value ==> users[j].email != email
    ensures r.None? <==> forall j :: 0 <= j < |users| ==> users[j].email != email
  {
    FindFirst(users, (u: User) => u.email == email)
  }

  predicate UniqueUserIds(users: seq<User>) {
    forall i, j :: 0 <= i < j < |users| ==> users[i].id != users[j].id
  }

  predicate NoDuplicates(s: seq<VideoId>) {
    forall i, j :: 0 <= i < j < |s| ==> s[i] != s[j]
  }

  // ---------------------------------------------------------------------
  // Registration and login
  // ---------------------------------------------------------------------

  /** The registration check: some stored user already has that email or
      that username. */
  function ExistingUser(users: seq<User>, username: string, email: string): (r: Option<nat>)
    ensures r.Some? ==> r.value < |users| && (users[r.value].email == email || users[r.value].username == username)
    ensures r.None? <==> forall u :: u in users ==> u.email != email && u.username != username
  {
    var r := FindFirst(users, (u: User) => u.email == email || u.username == username);
    assert r.None? ==> forall u :: u in users ==> u.email != email && u.username != username by {
      if r.None? {
        forall u | u in users ensures u.email != email && u.username != username {
          var j :| 0 <= j < |users| && users[j] == u;
        }
      }
    }
    r
  }

  /** `loginUser`: the first user with that email, if the password matches.
      An unknown email and a wrong password are refused alike. */
  function Login(users: seq<User>, email: string, password: string, matches: PasswordCheck): (r: Result<AuthResponse>)
    ensures r.Fail? ==> r.failure == InvalidCredentials
    ensures r.Ok? <==> var k := FindByEmail(users, email);
      k.Some? && matches(password, users[k.value].password)
    ensures r.Ok? ==> r.value.email == email && r.value.token.subject == r.value.id
    ensures r.Ok? ==> r.value == ResponseFor(users[FindByEmail(users, email).value])
  {
    match FindByEmail(users, email)
    case None => Fail(InvalidCredentials)
    case Some(i) =>
      if matches(password, users[i].password) then Ok(ResponseFor(users[i]))
      else Fail(InvalidCredentials)
  }

  /** When emails are unique, login succeeds exactly when some user has that
      email and a matching password, and answers for that user. */
  lemma LoginSucceedsIff(users: seq<User>, email: string, password: string, matches: PasswordCheck)
    requires forall i, j :: 0 <= i < j < |users| ==> users[i].email != users[j].email
    ensures Login(users, email, password, matches).Ok? <==>
      exists i :: 0 <= i < |users| && users[i].email == email && matches(password, users[i].password)
    ensures forall i :: 0 <= i < |users| && users[i].email == email && matches(password, users[i].password) ==>
      Login(users, email, password, matches) == Ok(ResponseFor(users[i]))
  {
    var k := FindByEmail(users, email);
    if k.Some? {
      forall i | 0 <= i < |users| && users[i].email == email
        ensures i == k.value
      {
      }
    }
  }

  // ---------------------------------------------------------------------
  // Profile
  // ---------------------------------------------------------------------

  /** The caller's user, or why there is none: no id on the request (401) or
      no stored user with it (404). */
  function LookupCaller(users: seq<User>, caller: Option<UserId>): (r: Result<nat>)
    ensures caller.None? <==> r == Fail(UserIdNotFound)
    ensures r.Fail? ==> r.failure in {UserIdNotFound, UserNotFound}
    ensures r.Ok? ==> caller.Some? && r.value < |users| && users[r.value].id == caller.value
    ensures caller.Some? && (forall u :: u in users ==> u.id != caller.value) <==> r == Fail(UserNotFound)
  {
    if caller.None? then Fail(UserIdNotFound)
    else match FindById(users, caller.value)
      case None => Fail(UserNotFound)
      case Some(i) => Ok(i)
  }

  /** `getUserProfile`: the caller's stored record without the password. */
  function GetProfile(users: seq<User>, caller: Option<UserId>): (r: Result<Profile>)
    ensures r.Fail? <==> LookupCaller(users, caller).Fail?
    ensures r.Fail? ==> r.failure == LookupCaller(users, caller).failure
    ensures r.Ok? ==> exists u :: (u in users && u.id == caller.value
      && r.value == Profile(u.id, u.username, u.email, u.isAdmin, u.watchlist, u.watchHistory))
  {
    match LookupCaller(users, caller)
    case Fail(f) => Fail(f)
    case Ok(i) =>
      var u := users[i];
      Ok(Profile(u.id, u.username, u.email, u.isAdmin, u.watchlist, u.watchHistory))
  }

  /** The fields a profile update body may carry. */
  datatype ProfileUpdate = ProfileUpdate(username: Option<string>, email: Option<string>, password: Option<string>)

  /** A JavaScript-truthy string: present and not empty. */
  predicate Truthy(s: Option<string>) {
    s.Some? && s.value != ""
  }

  /** `value || current`. */
  function OrElse(s: Option<string>, current: string): (r: string)
    ensures Truthy(s) ==> r == s.value
    ensures !Truthy(s) ==> r == current
  {
    if Truthy(s) then s.value else current
  }

  /** The profile update: username, email and password change only to a
      truthy value; the id, the admin flag and both lists stay. */
  function UpdatedUser(u: User, body: ProfileUpdate): (r: User)
    ensures r.id == u.id && r.isAdmin == u.isAdmin
    ensures r.watchlist == u.watchlist && r.watchHistory == u.watchHistory
    ensures r.username == OrElse(body.username, u.username)
    ensures r.email == OrElse(body.email, u.email)
    ensures r.password == OrElse(body.password, u.password)
  {
    u.(username := OrElse(body.username, u.username),
       email := OrElse(body.email, u.email),
       password := OrElse(body.password, u.password))
  }

  /** A body with nothing truthy in it leaves the user as it is, and applying
      the same body twice is applying it once. */
  lemma UpdatedUserLaws(u: User, body: ProfileUpdate)
    ensures !Truthy(body.username) && !Truthy(body.email) && !Truthy(body.password) ==> UpdatedUser(u, body) == u
    ensures UpdatedUser(UpdatedUser(u, body), body) == UpdatedUser(u, body)
  {
  }

  // ---------------------------------------------------------------------
  // Watchlist
  // ---------------------------------------------------------------------

  /** `addToWatchlist` on the list itself: refuse an id already present,
      else append it. */
  function WatchlistAdd(watchlist: seq<VideoId>, video: VideoId): (r: Result<seq<VideoId>>)
    ensures r.Fail? <==> video in watchlist
    ensures r.Fail? ==> r.failure == AlreadyInWatchlist
    ensures r.Ok? ==> |r.value| == |watchlist| + 1 && r.value[..|watchlist|] == watchlist
                      && r.value[|watchlist|] == video
    ensures r.Ok? && NoDuplicates(watchlist) ==> NoDuplicates(r.value)
  {
    if video in watchlist then Fail(AlreadyInWatchlist) else Ok(watchlist + [video])
  }

  /** `removeFromWatchlist` on the list itself: drop every occurrence of the
      id, keeping the rest in order. */
  function WatchlistRemove(watchlist: seq<VideoId>, video: VideoId): (r: seq<VideoId>)
    ensures multiset(r) == multiset(watchlist)[video := 0]
    ensures video !in watchlist ==> r == watchlist
  {
    if watchlist == [] then []
    else
      var rest := WatchlistRemove(watchlist[1..], video);
      assert watchlist == [watchlist[0]] + watchlist[1..];
      if watchlist[0] == video then rest else [watchlist[0]] + rest
  }

  /** What removal keeps: every other id, never the removed one. */
  lemma WatchlistRemoveMembers(watchlist: seq<VideoId>, video: VideoId)
    ensures video !in WatchlistRemove(watchlist, video)
    ensures forall x :: x in WatchlistRemove(watchlist, video) <==> x in watchlist && x != video
  {
    var r := WatchlistRemove(watchlist, video);
    assert forall x :: x in r <==> multiset(r)[x] > 0;
    assert forall x :: x in watchlist <==> multiset(watchlist)[x] > 0;
  }

  /** A list without duplicates keeps none after a removal. */
  lemma {:induction false} WatchlistRemoveNoDuplicates(watchlist: seq<VideoId>, video: VideoId)
    requires NoDuplicates(watchlist)
    ensures NoDuplicates(WatchlistRemove(watchlist, video))
    decreases |watchlist|
  {
    if watchlist != [] {
      var tail := watchlist[1..];
      TailNoDuplicates(watchlist);
      WatchlistRemoveNoDuplicates(tail, video);
      if watchlist[0] != video {
        WatchlistRemoveMembers(tail, video);
        ConsNoDuplicates(watchlist[0], WatchlistRemove(tail, video));
      }
    }
  }

  /** The tail of a list without repeats has none, and lacks the head. */
  lemma TailNoDuplicates(s: seq<VideoId>)
    requires NoDuplicates(s) && s != []
    ensures NoDuplicates(s[1..]) && s[0] !in s[1..]
  {
    var tail := s[1..];
    forall i, j | 0 <= i < j < |tail| ensures tail[i] != tail[j] {
      assert tail[i] == s[i + 1] && tail[j] == s[j + 1];
    }
    forall i | 0 <= i < |tail| ensures tail[i] != s[0] {
      assert tail[i] == s[i + 1];
    }
  }

  /** Putting an id that is not there in front of a list without repeats
      leaves it without repeats. */
  lemma ConsNoDuplicates(x: VideoId, rest: seq<VideoId>)
    requires NoDuplicates(rest) && x !in rest
    ensures NoDuplicates([x] + rest)
  {
    var r := [x] + rest;
    forall i, j | 0 <= i < j < |r| ensures r[i] != r[j] {
      if i == 0 {
        assert r[j] == rest[j - 1];
      } else {
        assert r[i] == rest[i - 1] && r[j] == rest[j - 1];
      }
    }
  }

  /** Removal works piecewise: the order of what is kept is the order of the
      original list. */
  lemma {:induction false} WatchlistRemoveAppend(a: seq<VideoId>, b: seq<VideoId>, video: VideoId)
    ensures WatchlistRemove(a + b, video) == WatchlistRemove(a, video) + WatchlistRemove(b, video)
    decreases |a|
  {
    if a != [] {
      assert (a + b)[1..] == a[1..] + b;
      WatchlistRemoveAppend(a[1..], b, video);
    } else {
      assert a + b == b;
    }
  }

  /** Adding a new id and removing it again restores the list. */
  lemma WatchlistAddRemove(watchlist: seq<VideoId>, video: VideoId)
    requires WatchlistAdd(watchlist, video).Ok?
    ensures WatchlistRemove(WatchlistAdd(watchlist, video).value, video) == watchlist
  {
    WatchlistRemoveAppend(watchlist, [video], video);
    assert WatchlistRemove([video], video) == [];
  }

  /** After a removal the id can always be added again, and lands at the end. */
  lemma WatchlistRemoveAdd(watchlist: seq<VideoId>, video: VideoId)
    ensures WatchlistAdd(WatchlistRemove(watchlist, video), video) == Ok(WatchlistRemove(watchlist, video) + [video])
  {
  }

  // ---------------------------------------------------------------------
  // The user collection as an object the handlers change in place
  // ---------------------------------------------------------------------

  class UserStore {
    var users: seq<User>
    var nextId: nat

    /** Ids are unique and below the next fresh one; no watchlist holds an
        id twice. */
    ghost predicate Valid()
      reads this
    {
      && UniqueUserIds(users)
      && (forall i :: 0 <= i < |users| ==> users[i].id < nextId)
      && (forall i :: 0 <= i < |users| ==> NoDuplicates(users[i].watchlist))
    }

    constructor ()
      ensures Valid() && users == [] && nextId == 0
    {
      users := [];
      nextId := 0;
    }

    /** `registerUser`: refused when the email or the username is taken;
        otherwise exactly one user is added, not an admin, with empty lists. */
    method Register(username: string, email: string, password: string) returns (r: Result<AuthResponse>)
      requires Valid()
      modifies this
      ensures Valid()
      ensures r.Ok? <==> forall u :: u in old(users) ==> u.email != email && u.username != username
      ensures r.Fail? ==> r.failure == UserAlreadyExists && users == old(users) && nextId == old(nextId)
      ensures r.Ok? ==>
        var created := User(old(nextId), username, email, password, false, [], []);
        && users == old(users) + [created]
        && r.value == ResponseFor(created)
        && FindById(old(users), created.id).None?
    {
      var existing := ExistingUser(users, username, email);
      if existing.Some? {
        return Fail(UserAlreadyExists);
      }
      var created := User(nextId, username, email, password, false, [], []);
      users := users + [created];
      nextId := nextId + 1;
      r := Ok(ResponseFor(created));
    }

    /** `updateUserProfile`. */
    method UpdateProfile(caller: Option<UserId>, body: ProfileUpdate) returns (r: Result<AuthResponse>)
      requires Valid()
      modifies this
      ensures Valid() && nextId == old(nextId)
      ensures LookupCaller(old(users), caller).Fail? ==>
        r == Fail(LookupCaller(old(users), caller).failure) && users == old(users)
      ensures LookupCaller(old(users), caller).Ok? ==>
        var i := LookupCaller(old(users), caller).value;
        && users == old(users)[i := UpdatedUser(old(users)[i], body)]
        && r == Ok(ResponseFor(users[i]))
    {
      var found := LookupCaller(users, caller);
      if found.Fail? {
        return Fail(found.failure);
      }
      var i := found.value;
      var user := users[i];
      user := user.(username := OrElse(body.username, user.username));
      user := user.(email := OrElse(body.email, user.email));
      if Truthy(body.password) {
        user := user.(password := body.password.value);
      }
      users := users[i := user];
      r := Ok(ResponseFor(user));
    }

    /** `addToWatchlist`: the caller's list gains the id at its end, unless
        it is already there; the response is the new list. */
    method AddToWatchlist(caller: Option<UserId>, video: VideoId) returns (r: Result<seq<VideoId>>)
      requires Valid()
      modifies this
      ensures Valid() && nextId == old(nextId)
      ensures LookupCaller(old(users), caller).Fail? ==>
        r == Fail(LookupCaller(old(users), caller).failure) && users == old(users)
      ensures LookupCaller(old(users), caller).Ok? ==>
        var i := LookupCaller(old(users), caller).value;
        var added := WatchlistAdd(old(users)[i].watchlist, video);
        && r == added
        && (added.Fail? ==> users == old(users))
        && (added.Ok? ==> users == old(users)[i := old(users)[i].(watchlist := added.value)])
    {
      var found := LookupCaller(users, caller);
      if found.Fail? {
        return Fail(found.failure);
      }
      var i := found.value;
      var user := users[i];
      if video in user.watchlist {
        return Fail(AlreadyInWatchlist);
      }
      user := user.(watchlist := user.watchlist + [video]);
      users := users[i := user];
      r := Ok(user.watchlist);
    }

    /** `removeFromWatchlist`: every occurrence of the id leaves the caller's
        list; an id that is not there is no error. */
    method RemoveFromWatchlist(caller: Option<UserId>, video: VideoId) returns (r: Result<seq<VideoId>>)
      requires Valid()
      modifies this
      ensures Valid() && nextId == old(nextId)
      ensures LookupCaller(old(users), caller).Fail? ==>
        r == Fail(LookupCaller(old(users), caller).failure) && users == old(users)
      ensures LookupCaller(old(users), caller).Ok? ==>
        var i := LookupCaller(old(users), caller).value;
        var kept := WatchlistRemove(old(users)[i].watchlist, video);
        && r == Ok(kept)
        && users == old(users)[i := old(users)[i].(watchlist := kept)]
    {
      var found := LookupCaller(users, caller);
      if found.Fail? {
        return Fail(found.failure);
      }
      var i := found.value;
      var user := users[i];
      WatchlistRemoveNoDuplicates(user.watchlist, video);
      user := user.(watchlist := WatchlistRemove(user.watchlist, video));
      users := users[i := user];
      r := Ok(user.watchlist);
    }
  }
}
