/** Login, logout and the admin account seeded at startup. */
module Auth {
  import opened Wrappers
  import opened Models
  import opened Http

  /** The first user with exactly this username, as
      `select(User).where(User.username == name).first()`. */
  function FindUser(users: seq<User>, name: string): (r: Option<User>)
    ensures r.Some? ==> r.value in users && r.value.username == name
    ensures r.None? <==> forall i :: 0 <= i < |users| ==> users[i].username != name
  {
    if |users| == 0 then None
    else if users[0].username == name then Some(users[0])
    else FindUser(users[1..], name)
  }

  /** With unique usernames the lookup finds the one user of that name. */
  lemma FindUniqueUser(users: seq<User>, u: User)
    requires UniqueUsernames(users)
    requires u in users
    ensures FindUser(users, u.username) == Some(u)
  {
  }

  /** `POST /login`. `verify(password, hash)` stands for bcrypt's check. */
  function Login(s: Store, username: string, password: string, verify: (string, string) -> bool): (r: Response)
  {
    match FindUser(s.users, username)
    case Some(u) =>
      if verify(password, u.hashedPassword) then Redirect("/admin", Found, SetCookie("auth", "true", true))
      else Failure(401)
    case None => Failure(401)
  }

  /** Login succeeds exactly when a user of that name exists and the
      password verifies against its hash; success is a 302 to /admin
      setting `auth=true`, failure a 401 that sets no cookie. */
  lemma LoginSucceedsIff(s: Store, username: string, password: string, verify: (string, string) -> bool)
    requires UniqueUsernames(s.users)
    ensures Login(s, username, password, verify).Redirect?
        <==> exists u :: u in s.users && u.username == username && verify(password, u.hashedPassword)
    ensures Login(s, username, password, verify).Redirect? ==>
              Login(s, username, password, verify) == Redirect("/admin", 302, SetCookie("auth", "true", true))
    ensures !Login(s, username, password, verify).Redirect? ==> Login(s, username, password, verify) == Failure(401)
  {
    if u :| u in s.users && u.username == username && verify(password, u.hashedPassword) {
      FindUniqueUser(s.users, u);
    }
  }

  /** The cookie a successful login sets opens the admin gate, whatever
      the browser held before. */
  lemma LoginOpensGate(s: Store, username: string, password: string, verify: (string, string) -> bool, jar: Cookies)
    requires Login(s, username, password, verify).Redirect?
    ensures IsAuthenticated(ApplyCookie(jar, Login(s, username, password, verify)))
  {
  }

  /** `GET /logout`: drop the cookie, go to the front page. */
  function Logout(): Response
  {
    Redirect("/", TemporaryRedirect, DeleteCookie("auth"))
  }

  /** After logout the gate is closed, whatever the browser held before. */
  lemma LogoutClosesGate(jar: Cookies)
    ensures !IsAuthenticated(ApplyCookie(jar, Logout()))
  {
  }

  /** The startup hook: add the user `admin` when no user has that name.
      `adminHash` stands for `bcrypt.hash("admin")`. */
  function OnStartup(s: Store, adminHash: string): (s': Store)
    ensures s'.items == s.items && s'.routes == s.routes && s'.links == s.links
    ensures FindUser(s'.users, "admin").Some?
    ensures FindUser(s.users, "admin").Some? ==> s' == s
    ensures FindUser(s.users, "admin").None? ==>
              && |s'.users| == |s.users| + 1
              && s'.users[..|s.users|] == s.users
              && s'.users[|s.users|].username == "admin"
              && s'.users[|s.users|].hashedPassword == adminHash
    ensures Valid(s) ==> Valid(s')
  {
    if FindUser(s.users, "admin").Some? then s
    else
      var users' := InsertUser(s.users, User(None, "admin", adminHash));
      InsertUserKeepsKeys(s.users, User(None, "admin", adminHash));
      assert FindUser(users', "admin").Some? by {
        assert users'[|users'| - 1].username == "admin";
      }
      s.(users := users')
  }

  /** Seeding twice adds nothing the first run did not add. */
  lemma StartupIdempotent(s: Store, hash1: string, hash2: string)
    ensures OnStartup(OnStartup(s, hash1), hash2) == OnStartup(s, hash1)
  {
  }

  /** After seeding a valid store there is exactly one user named admin. */
  lemma {:induction false} StartupLeavesOneAdmin(s: Store, adminHash: string)
    requires Valid(s)
    ensures var s' := OnStartup(s, adminHash);
      exists i :: 0 <= i < |s'.users| && s'.users[i].username == "admin"
        && forall j :: 0 <= j < |s'.users| && s'.users[j].username == "admin" ==> j == i
  {
    var s' := OnStartup(s, adminHash);
    var u := FindUser(s'.users, "admin").value;
    var i :| 0 <= i < |s'.users| && s'.users[i] == u;
  }
}
