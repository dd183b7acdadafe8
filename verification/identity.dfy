/** Queries over the users table: lookups, the login check and the user
    listings. All of them read the table and change nothing. */
module Identity {
  import opened Records

  /** Primary-key lookup of a user (`User.query.get`, and `get_or_404` when
      the caller turns `None` into a 404). */
  function FindUser(users: seq<User>, id: nat): (r: Option<User>)
    ensures r.Some? ==> r.value in users && r.value.id == id
    ensures r.None? <==> !HasUser(users, id)
  {
    if |users| == 0 then None
    else if users[0].id == id then Some(users[0])
    else FindUser(users[1..], id)
  }

  /** The first user with this username (`filter_by(username=...).first()`). */
  function FindByUsername(users: seq<User>, username: string): (r: Option<User>)
    ensures r.Some? ==> r.value in users && r.value.username == username
    ensures r.None? <==> !HasUsername(users, username)
  {
    if |users| == 0 then None
    else if users[0].username == username then Some(users[0])
    else FindByUsername(users[1..], username)
  }

  /** The login check: look the user up by username and compare the stored
      password with the supplied one by plain equality. An unknown username
      and a wrong password give the same error. */
  function Authenticate(users: seq<User>, username: string, password: string): (r: Result<User>)
    ensures r.Ok? ==> r.value in users && r.value.username == username && r.value.passwordHash == password
    ensures r.Err? ==> r.error == InvalidCredentials
  {
    match FindByUsername(users, username)
    case None => Err(InvalidCredentials)
    case Some(u) => if u.passwordHash == password then Ok(u) else Err(InvalidCredentials)
  }

  /** With usernames pairwise distinct, a login succeeds exactly when some
      stored user has both the username and the password supplied. */
  lemma AuthenticateExact(users: seq<User>, username: string, password: string)
    requires DistinctUsernames(users)
    ensures Authenticate(users, username, password).Ok?
        <==> exists u :: u in users && u.username == username && u.passwordHash == password
  {
  }

  /** The user listing shown to `me`: every stored user but `me`, in table order. */
  function ListOthers(users: seq<User>, me: nat): (r: seq<User>)
    ensures forall u :: u in r <==> u in users && u.id != me
    ensures DistinctIds(users) ==> DistinctIds(r)
  {
    if |users| == 0 then []
    else if users[0].id != me then [users[0]] + ListOthers(users[1..], me)
    else ListOthers(users[1..], me)
  }

  /** With primary keys distinct, the listing omits exactly one row when `me`
      is stored and none otherwise. */
  lemma {:induction false} ListOthersCount(users: seq<User>, me: nat)
    requires DistinctIds(users)
    ensures |ListOthers(users, me)| == if HasUser(users, me) then |users| - 1 else |users|
  {
    if |users| > 0 {
      var tail := users[1..];
      ListOthersCount(tail, me);
      if users[0].id == me {
        assert !HasUser(tail, me) by {
          forall u | u in tail ensures u.id != me {
            var j :| 0 <= j < |tail| && tail[j] == u;
            assert users[0].id != users[j + 1].id;
          }
        }
      } else {
        assert HasUser(users, me) <==> HasUser(tail, me);
      }
    }
  }

  /** The users whose primary key is in `ids`, in table order
      (`User.query.filter(User.id.in_(ids))`). */
  function UsersAmong(users: seq<User>, ids: set<nat>): (r: seq<User>)
    ensures forall u :: u in r <==> u in users && u.id in ids
    ensures DistinctIds(users) ==> DistinctIds(r)
  {
    if |users| == 0 then []
    else if users[0].id in ids then [users[0]] + UsersAmong(users[1..], ids)
    else UsersAmong(users[1..], ids)
  }
}
