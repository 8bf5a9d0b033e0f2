/**
 * Login and logout. The session is explicit: a route receives the id the
 * session cookie carries (or `None`) and login and logout say which session
 * they leave behind.
 */
module Auth {
  import opened Wrappers
  import opened Schema

  /** A response together with the session that follows it. */
  datatype SessionOutcome = SessionOutcome(response: Response, session: Option<UserId>)

  /** The `unique=True` constraint on the username column. */
  ghost predicate UsernamesUnique(users: seq<User>) {
    forall i, j | 0 <= i < |users| && 0 <= j < |users| && users[i].username == users[j].username :: i == j
  }

  /**
   * The first user whose username is `username`. A body without a username
   * looks for a NULL username, which the non-nullable column never holds.
   */
  function FindByUsername(users: seq<User>, username: Option<string>): (r: Option<User>)
    ensures r.Some? ==> r.value in users && Some(r.value.username) == username
    ensures r.None? <==> forall u | u in users :: Some(u.username) != username
  {
    if users == [] then None
    else if Some(users[0].username) == username then Some(users[0])
    else FindByUsername(users[1..], username)
  }

  /** Whether `u` is a user the given credentials name exactly. */
  predicate Matches(u: User, username: Option<string>, password: Option<string>) {
    Some(u.username) == username && u.password == password
  }

  const InvalidCredentials := Response(401, Message("Unauthorized. Invalid username or password"))

  /**
   * POST /login. The password in the body (`None` when absent or null) is
   * compared with the stored one (`None` when the column is NULL). Only a
   * successful login replaces the session; a refused one leaves `current`,
   * whoever it names, in place.
   */
  function Login(users: seq<User>, current: Option<UserId>, username: Option<string>, password: Option<string>): (r: SessionOutcome)
    requires UsernamesUnique(users)
    ensures r.response.status == 200 <==> exists u | u in users :: Matches(u, username, password)
    ensures r.response.status == 200 ==>
      exists u | u in users && Matches(u, username, password) ::
        r == SessionOutcome(Response(200, Message("Logged in successfully, welcome " + u.username)), Some(u.id))
    ensures r.response.status != 200 ==> r == SessionOutcome(InvalidCredentials, current)
  {
    var user := FindByUsername(users, username);
    if user.Some? && password == user.value.password then
      SessionOutcome(Response(200, Message("Logged in successfully, welcome " + user.value.username)), Some(user.value.id))
    else
      assert forall u | u in users && Some(u.username) == username :: u == user.value by {
        forall u | u in users && Some(u.username) == username ensures u == user.value {
          var i :| 0 <= i < |users| && users[i] == u;
          var j :| 0 <= j < |users| && users[j] == user.value;
        }
      }
      SessionOutcome(InvalidCredentials, current)
  }

  /** POST /logout: behind the login guard; ends the session. */
  function Logout(users: seq<User>, current: Option<UserId>): (r: SessionOutcome)
    ensures r.response.status == 200 <==> Authenticated(users, current)
    ensures Authenticated(users, current) ==> r.session.None?
    ensures !Authenticated(users, current) ==> r == SessionOutcome(NotLoggedIn, current)
  {
    if Authenticated(users, current) then SessionOutcome(Response(200, Message("Logout successfully")), None)
    else SessionOutcome(NotLoggedIn, current)
  }
}
