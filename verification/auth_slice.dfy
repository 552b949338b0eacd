/** The client's session state and the reducers that change it in answer to
    the login, registration, profile and watchlist requests. */
module AuthSlice {
  import opened Wrappers
  import opened VideoModel
  import opened Accounts

  /** The signed-in user as the client keeps it. The login, registration
      and profile responses carry no lists, so both may be absent. */
  datatype ClientUser = ClientUser(
    id: UserId,
    username: string,
    email: string,
    isAdmin: bool,
    watchHistory: Option<seq<VideoId>>,
    watchlist: Option<seq<VideoId>>,
    token: Token)

  /** Every field of the client's session state, as one value. */
  datatype Snapshot = Snapshot(user: Option<ClientUser>, loading: bool, error: Option<string>)

  /** The user a successful login, registration or profile update leaves on
      the client: the response's fields, and no lists. */
  function SessionUser(response: AuthResponse): (u: ClientUser)
    ensures u.id == response.id && u.token == response.token
    ensures u.username == response.username && u.email == response.email
    ensures u.isAdmin == response.isAdmin
    ensures u.watchlist.None? && u.watchHistory.None?
  {
    ClientUser(response.id, response.username, response.email, response.isAdmin, None, None, response.token)
  }

  /** After a successful login the client holds the stored user found by
      that email (its id, name and admin flag) and a token for that id. */
  lemma LoginSession(users: seq<User>, email: string, password: string, matches: PasswordCheck)
    requires Login(users, email, password, matches).Ok?
    ensures var u := SessionUser(Login(users, email, password, matches).value);
      var k := FindByEmail(users, email).value;
      && u.id == users[k].id && u.username == users[k].username
      && u.email == email && u.isAdmin == users[k].isAdmin
      && u.token.subject == u.id
      && u.watchlist.None?
  {
  }

  /** The copy of the user the watchlist requests store in the browser
      (`{ ...user, watchlist: list }`): every field kept except the
      watchlist, which becomes the server's list. */
  function WithWatchlist(u: ClientUser, list: seq<VideoId>): (r: ClientUser)
    ensures r.watchlist == Some(list)
    ensures r.(watchlist := u.watchlist) == u
  {
    u.(watchlist := Some(list))
  }

  /** A later list replaces an earlier one, and putting back the list a user
      had restores that user. */
  lemma WithWatchlistLaws(u: ClientUser, first: seq<VideoId>, second: seq<VideoId>)
    ensures WithWatchlist(WithWatchlist(u, first), second) == WithWatchlist(u, second)
    ensures u.watchlist.Some? ==> WithWatchlist(u, u.watchlist.value) == u
  {
  }

  class AuthState {
    var user: Option<ClientUser>
    var loading: bool
    var error: Option<string>

    function Current(): Snapshot
      reads this
    {
      Snapshot(user, loading, error)
    }

    /** The initial state; the user read back from browser storage, if any,
        is a parameter. */
    constructor (stored: Option<ClientUser>)
      ensures Current() == Snapshot(stored, false, None)
    {
      user := stored;
      loading := false;
      error := None;
    }

    /** `logout`. */
    method Logout()
      modifies this
      ensures Current() == Snapshot(None, false, None)
    {
      user := None;
      loading := false;
      error := None;
    }

    /** `clearError`. */
    method ClearError()
      modifies this
      ensures Current() == old(Current()).(error := None)
    {
      error := None;
    }

    /** The pending case of `login`, `register` and `updateProfile`. */
    method AuthPending()
      modifies this
      ensures Current() == old(Current()).(loading := true, error := None)
    {
      loading := true;
      error := None;
    }

    /** The fulfilled case of `login`, `register` and `updateProfile`: the
        response body, as `SessionUser` reads it, becomes the user; an
        earlier error stays. */
    method AuthFulfilled(response: AuthResponse)
      modifies this
      ensures Current() == old(Current()).(loading := false, user := Some(SessionUser(response)))
    {
      loading := false;
      user := Some(SessionUser(response));
    }

    /** The rejected case of `login`, `register` and `updateProfile`: the
        user stays. */
    method AuthRejected(message: string)
      modifies this
      ensures Current() == old(Current()).(loading := false, error := Some(message))
    {
      loading := false;
      error := Some(message);
    }

    /** The fulfilled case of `addToWatchlist` and `removeFromWatchlist`:
        only the watchlist of the user signed in at fulfilment changes, to
        the server's list (`WithWatchlist` of that user). This is the copy
        the request stored in the browser only when the user has not changed
        since the request read it. Without a signed-in user nothing changes. */
    method WatchlistFulfilled(payload: seq<VideoId>)
      modifies this
      ensures old(user).None? ==> Current() == old(Current())
      ensures old(user).Some? ==> Current() == old(Current()).(user := Some(WithWatchlist(old(user).value, payload)))
    {
      if user.Some? {
        var updated := user.value;
        updated := updated.(watchlist := Some(payload));
        user := Some(updated);
      }
    }
  }
}
