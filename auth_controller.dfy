/**
 * Account registration and login. The user collection is a registry whose
 * usernames are kept unique by the register handler; password hashing,
 * password comparison and token signing (bcrypt and jwt) are parameters.
 */
module AuthController {
  import opened Wrappers
  import opened RegistrationModel
  import opened AuthMiddleware

  datatype User = User(id: Id, username: string, password: string, role: string)

  /** bcrypt.hash(password, 10). */
  type Hasher = string -> string

  /** bcrypt.compare(password, storedHash). */
  type Comparer = (string, string) -> bool

  /** jwt.sign(payload, secret, { expiresIn: '24h' }). */
  type Signer = Claims -> string

  /** A JSON answer: a status with a message, or a signed token with the caller's role. */
  datatype Reply =
    | Status(status: nat, message: string)
    | Token(token: string, role: string)

  /** `role || 'student'`: an absent or empty role becomes "student". */
  function DefaultRole(role: Option<string>): (r: string)
    ensures r != ""
    ensures role.Some? && role.value != "" ==> r == role.value
    ensures role.None? || role.value == "" ==> r == "student"
  {
    match role
    case Some(given) => if given != "" then given else "student"
    case None => "student"
  }

  /** User.findOne({ username }): the first user with that name. */
  function FindUser(users: seq<User>, username: string): (u: Option<User>)
    ensures u.None? <==> forall i :: 0 <= i < |users| ==> users[i].username != username
    ensures u.Some? ==> u.value in users && u.value.username == username
  {
    if users == [] then None
    else if users[0].username == username then Some(users[0])
    else FindUser(users[1..], username)
  }

  /** No two users share a username. */
  ghost predicate UniqueUsernames(users: seq<User>) {
    forall i, j :: 0 <= i < j < |users| ==> users[i].username != users[j].username
  }

  /** With unique usernames, the lookup returns the one user holding the name. */
  lemma {:induction false} FindUniqueUser(users: seq<User>, k: nat)
    requires UniqueUsernames(users) && k < |users|
    ensures FindUser(users, users[k].username) == Some(users[k])
  {
    if k > 0 {
      assert users[0].username != users[k].username;
      assert users[1..][k - 1] == users[k];
      FindUniqueUser(users[1..], k - 1);
    }
  }

  /** A name absent from the registry, once appended, is found at the end. */
  lemma {:induction false} FindAppended(users: seq<User>, u: User)
    requires FindUser(users, u.username).None?
    ensures FindUser(users + [u], u.username) == Some(u)
  {
    if users != [] {
      assert (users + [u])[1..] == users[1..] + [u];
      FindAppended(users[1..], u);
    } else {
      assert users + [u] == [u];
    }
  }

  /** The user collection. */
  class UserRegistry {
    var users: seq<User>
    var nextId: Id

    ghost predicate Valid()
      reads this
    {
      && UniqueUsernames(users)
      && forall u :: u in users ==> u.id < nextId
    }

    constructor ()
      ensures Valid() && users == []
    {
      users := [];
      nextId := 0;
    }

    /** exports.register: refuse a taken username, else store the hash with the default role. */
    method Register(username: string, password: string, role: Option<string>, hash: Hasher)
      returns (reply: Reply)
      requires Valid()
      modifies this
      ensures Valid()
      ensures FindUser(old(users), username).Some? ==>
                reply == Status(400, "Username already exists") && users == old(users)
      ensures FindUser(old(users), username).None? ==>
                && reply == Status(201, "User registered successfully")
                && users == old(users) + [User(old(nextId), username, hash(password), DefaultRole(role))]
    {
      var existing := FindUser(users, username);
      if existing.Some? {
        return Status(400, "Username already exists");
      }
      var hashed := hash(password);
      var user := User(nextId, username, hashed, DefaultRole(role));
      users := users + [user];
      nextId := nextId + 1;
      reply := Status(201, "User registered successfully");
    }
  }

  /** exports.login: 401 for an unknown name or a wrong password, else a token for { id, role }. */
  function Login(users: seq<User>, username: string, password: string,
                 compare: Comparer, sign: Signer): (reply: Reply)
    ensures reply == Status(401, "Username does not exist") <==> FindUser(users, username).None?
    ensures reply == Status(401, "Wrong password") <==>
              FindUser(users, username).Some? && !compare(password, FindUser(users, username).value.password)
    ensures reply.Token? ==>
              exists i :: 0 <= i < |users| && users[i].username == username
                          && compare(password, users[i].password)
                          && reply == Token(sign(Claims(users[i].id, users[i].role)), users[i].role)
    ensures var found := FindUser(users, username);
            found.Some? && compare(password, found.value.password) ==>
              reply == Token(sign(Claims(found.value.id, found.value.role)), found.value.role)
  {
    match FindUser(users, username)
    case None => Status(401, "Username does not exist")
    case Some(user) =>
      if !compare(password, user.password) then Status(401, "Wrong password")
      else Token(sign(Claims(user.id, user.role)), user.role)
  }

  /**
   * Registering a new name and then logging in with the same password succeeds
   * (when the comparison accepts the hash of the password), and the token
   * carries the new user's id and role.
   */
  lemma LoginAfterRegister(users: seq<User>, id: Id, username: string, password: string,
                           role: Option<string>, hash: Hasher, compare: Comparer, sign: Signer)
    requires FindUser(users, username).None?
    requires compare(password, hash(password))
    ensures var u := User(id, username, hash(password), DefaultRole(role));
            Login(users + [u], username, password, compare, sign)
              == Token(sign(Claims(id, DefaultRole(role))), DefaultRole(role))
  {
    FindAppended(users, User(id, username, hash(password), DefaultRole(role)));
  }

  /** A registered user's login with a password the comparison rejects issues no token. */
  lemma WrongPasswordNoToken(users: seq<User>, k: nat, password: string,
                             compare: Comparer, sign: Signer)
    requires UniqueUsernames(users) && k < |users|
    requires !compare(password, users[k].password)
    ensures Login(users, users[k].username, password, compare, sign) == Status(401, "Wrong password")
  {
    FindUniqueUser(users, k);
  }
}
