/** The login gate of the front end: a plaintext comparison of the
    submitted credentials against the loaded user list. It is a display
    switch, not an authentication mechanism. */
module Session {
  import opened Search
  import opened JsString

  /** One entry of the user list. `role` is compared with the literal
      "administrator"; every other value is a standard user. */
  datatype User = User(username: string, password: string, role: string)

  const AdministratorRole: string := "administrator"

  /** The callback `u => u.username === username && u.password === password`. */
  function Credentials(username: string, password: string): User -> bool {
    (u: User) => u.username == username && u.password == password
  }

  /** The login handler's lookup: both inputs are trimmed, then the first
      user whose username and password are exactly equal to them (case
      sensitive, no normalisation) is the one found. */
  function Authenticate(users: seq<User>, username: string, password: string): (r: Option<User>)
    ensures r.Some? <==> exists i :: 0 <= i < |users| &&
                                     users[i].username == Trim(username) &&
                                     users[i].password == Trim(password)
    ensures r.Some? ==> exists i :: 0 <= i < |users| && users[i] == r.value &&
                                    r.value.username == Trim(username) &&
                                    r.value.password == Trim(password) &&
                                    forall j :: 0 <= j < i ==>
                                      !(users[j].username == Trim(username) &&
                                        users[j].password == Trim(password))
  {
    var r := Find(users, Credentials(Trim(username), Trim(password)));
    assert r.Some? ==> Credentials(Trim(username), Trim(password))(r.value);
    r
  }

  /** The admin flag after a login attempt: a match sets it to whether the
      matched user's role is "administrator"; a mismatch leaves it as it was. */
  function AdminAfterLogin(users: seq<User>, username: string, password: string, wasAdmin: bool): (a: bool)
    ensures Authenticate(users, username, password).None? ==> a == wasAdmin
    ensures Authenticate(users, username, password).Some? ==>
              a == (Authenticate(users, username, password).value.role == AdministratorRole)
    ensures a && !wasAdmin ==> exists i :: 0 <= i < |users| && users[i].role == AdministratorRole &&
                                           users[i].username == Trim(username) &&
                                           users[i].password == Trim(password)
  {
    match Authenticate(users, username, password)
    case None => wasAdmin
    case Some(u) => u.role == AdministratorRole
  }

  /** Two inputs of the login scenarios below, with blanks around them. */
  lemma TrimmedPaddedUsername()
    ensures Trim(" admin\t") == "admin"
  {
    assert !IsWhiteSpace('a') && !IsWhiteSpace('n');
    assert AllWhiteSpace(" ") && AllWhiteSpace("\t");
    TrimPadded(" ", "admin", "\t");
    assert " " + "admin" + "\t" == " admin\t";
  }

  lemma TrimmedPaddedPassword()
    ensures Trim("admin123\n") == "admin123"
  {
    assert !IsWhiteSpace('a') && !IsWhiteSpace('3');
    assert AllWhiteSpace([]) && AllWhiteSpace("\n");
    TrimPadded([], "admin123", "\n");
    assert [] + "admin123" + "\n" == "admin123\n";
  }

  /** The user at position `k` matches the trimmed inputs and no earlier
      user does: that user is the one the login finds. */
  lemma AuthenticateFindsFirst(users: seq<User>, k: int, username: string, password: string)
    requires 0 <= k < |users|
    requires users[k].username == Trim(username) && users[k].password == Trim(password)
    requires forall j :: 0 <= j < k ==>
               !(users[j].username == Trim(username) && users[j].password == Trim(password))
    ensures Authenticate(users, username, password) == Some(users[k])
  {
    var r := Authenticate(users, username, password);
    var i :| 0 <= i < |users| && users[i] == r.value &&
             r.value.username == Trim(username) && r.value.password == Trim(password) &&
             forall j :: 0 <= j < i ==> !(users[j].username == Trim(username) && users[j].password == Trim(password));
    assert !(i < k) && !(k < i);
  }

  /** The account admin/admin123 with the role "administrator", and no
      earlier user with the same credentials: any inputs that trim to that
      pair (such as " admin\t" and "admin123\n", by TrimmedPaddedUsername
      and TrimmedPaddedPassword) log in as administrator, whatever the flag was. */
  lemma AdminLoginAccepted(before: seq<User>, after: seq<User>, username: string, password: string,
                           wasAdmin: bool)
    requires forall u :: u in before ==> !(u.username == "admin" && u.password == "admin123")
    requires Trim(username) == "admin" && Trim(password) == "admin123"
    ensures AdminAfterLogin(before + [User("admin", "admin123", AdministratorRole)] + after,
                            username, password, wasAdmin)
  {
    var admin := User("admin", "admin123", AdministratorRole);
    var users := before + [admin] + after;
    var k := |before|;
    assert users[k] == admin;
    forall j | 0 <= j < k
      ensures !(users[j].username == Trim(username) && users[j].password == Trim(password))
    {
      assert users[j] == before[j] && before[j] in before;
    }
    AuthenticateFindsFirst(users, k, username, password);
  }

  /** When every user named admin has the password admin123, a login as
      admin (any input that trims to it) with any other password is
      refused and the flag keeps its value. */
  lemma AdminLoginRefused(users: seq<User>, username: string, password: string, wasAdmin: bool)
    requires forall u :: u in users && u.username == "admin" ==> u.password == "admin123"
    requires Trim(username) == "admin" && Trim(password) != "admin123"
    ensures Authenticate(users, username, password).None?
    ensures AdminAfterLogin(users, username, password, wasAdmin) == wasAdmin
  {
    forall i | 0 <= i < |users|
      ensures !(users[i].username == Trim(username) && users[i].password == Trim(password))
    {
      assert users[i] in users;
    }
  }
}
