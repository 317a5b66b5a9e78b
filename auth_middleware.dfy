/**
 * The two middlewares every protected route runs: authenticateToken, which
 * finds a bearer token in the Authorization header or else in the `token`
 * cookie and verifies it, and authorizeRoles, which checks the caller's role.
 * Token verification (jwt.verify) is a parameter: its cryptography is not
 * modelled.
 */
module AuthMiddleware {
  import opened Wrappers
  import opened RegistrationModel

  /** The decoded token payload, stored as req.user: { id, role }. */
  datatype Claims = Claims(id: Id, role: string)

  /** What a middleware does: call next, or answer with a status. */
  datatype Step = Next | Respond(status: nat)

  /** jwt.verify with the server secret: the payload of a valid token, None otherwise. */
  type Verifier = string -> Option<Claims>

  /** String.prototype.split(' '): every field between single spaces, empty fields included. */
  function Split(s: string): (fields: seq<string>)
    ensures |fields| >= 1
    ensures forall i :: 0 <= i < |fields| ==> ' ' !in fields[i]
    ensures |fields| >= 2 <==> ' ' in s
  {
    if s == [] then [""]
    else
      var rest := Split(s[1..]);
      if s[0] == ' ' then [""] + rest
      else [[s[0]] + rest[0]] + rest[1..]
  }

  /** Array.prototype.join(' '). */
  function Join(fields: seq<string>): string
    requires |fields| >= 1
  {
    if |fields| == 1 then fields[0] else fields[0] + " " + Join(fields[1..])
  }

  /** Splitting loses nothing: joining the fields back gives the header. */
  lemma {:induction false} JoinSplit(s: string)
    ensures Join(Split(s)) == s
  {
    if s != [] {
      var rest := Split(s[1..]);
      JoinSplit(s[1..]);
      assert s == [s[0]] + s[1..];
      if s[0] != ' ' {
        var fields := [[s[0]] + rest[0]] + rest[1..];
        assert fields[1..] == rest[1..];
        if |rest| > 1 {
          assert Join(rest) == rest[0] + " " + Join(rest[1..]);
        }
      }
    }
  }

  /** A word without spaces in front of the rest joins onto the rest's first field. */
  lemma {:induction false} SplitPrefix(w: string, t: string)
    requires ' ' !in w
    ensures Split(w + t) == [w + Split(t)[0]] + Split(t)[1..]
  {
    if w != [] {
      var f := Split(t);
      assert (w + t)[0] == w[0] && (w + t)[1..] == w[1..] + t;
      assert w[0] != ' ' by { assert w[0] in w; }
      SplitPrefix(w[1..], t);
      var rest := Split(w[1..] + t);
      assert rest[0] == w[1..] + f[0] && rest[1..] == f[1..];
      assert [w[0]] + (w[1..] + f[0]) == w + f[0];
    } else {
      var f := Split(t);
      assert w + t == t && w + f[0] == f[0];
      assert f == [f[0]] + f[1..];
    }
  }

  /** Splitting undoes joining fields that hold no spaces. */
  lemma {:induction false} SplitJoin(fields: seq<string>)
    requires |fields| >= 1
    requires forall i :: 0 <= i < |fields| ==> ' ' !in fields[i]
    ensures Split(Join(fields)) == fields
  {
    var w := fields[0];
    if |fields| == 1 {
      SplitPrefix(w, "");
      assert w + "" == w;
    } else {
      var rest := Join(fields[1..]);
      SplitJoin(fields[1..]);
      assert (" " + rest)[0] == ' ' && (" " + rest)[1..] == rest;
      assert Split(" " + rest) == [""] + fields[1..];
      SplitPrefix(w, " " + rest);
      assert w + " " + rest == w + (" " + rest);
      assert w + "" == w;
    }
  }

  /** `authHeader && authHeader.split(' ')[1]`; an absent or empty header gives nothing. */
  function HeaderToken(authorization: Option<string>): (t: Option<string>)
    ensures t.Some? <==> authorization.Some? && ' ' in authorization.value
    ensures t.Some? ==> ' ' !in t.value
  {
    match authorization
    case None => None
    case Some(h) =>
      if h == "" then None
      else
        var fields := Split(h);
        if |fields| >= 2 then Some(fields[1]) else None
  }

  /** The header's second word is its token: "Bearer <token>" yields <token>. */
  lemma BearerToken(scheme: string, token: string)
    requires ' ' !in scheme && ' ' !in token
    ensures HeaderToken(Some(scheme + " " + token)) == Some(token)
  {
    var fields := [scheme, token];
    assert Join(fields[1..]) == token;
    SplitJoin(fields);
  }

  /** A header without a space carries no token. */
  lemma NoSpaceNoToken(h: string)
    requires ' ' !in h
    ensures HeaderToken(Some(h)) == None
  {
    SplitJoin([h]);
  }

  /** JavaScript truthiness of a token: present and not the empty string. */
  predicate Truthy(token: Option<string>) {
    token.Some? && token.value != ""
  }

  function CookieToken(cookies: map<string, string>): (t: Option<string>)
    ensures t.Some? <==> "token" in cookies
    ensures t.Some? ==> t.value == cookies["token"]
  {
    if "token" in cookies then Some(cookies["token"]) else None
  }

  /** The token authenticateToken goes on with: the header's, else the cookie's. */
  function SelectToken(authorization: Option<string>, cookies: Option<map<string, string>>): (t: Option<string>)
    ensures Truthy(t) && !Truthy(HeaderToken(authorization)) ==>
              cookies.Some? && t == CookieToken(cookies.value)
    ensures Truthy(HeaderToken(authorization)) ==> t == HeaderToken(authorization)
    ensures !Truthy(t) ==> !Truthy(HeaderToken(authorization))
    ensures !Truthy(HeaderToken(authorization)) && cookies.Some? ==> t == CookieToken(cookies.value)
    ensures !Truthy(HeaderToken(authorization)) && cookies.None? ==> t == HeaderToken(authorization)
  {
    var token := HeaderToken(authorization);
    if !Truthy(token) && cookies.Some? then CookieToken(cookies.value) else token
  }

  /** The payload authenticateToken stores in req.user, or None when it answers 403. */
  function Authenticate(authorization: Option<string>, cookies: Option<map<string, string>>,
                        verify: Verifier): (user: Option<Claims>)
    ensures user.Some? <==> Truthy(SelectToken(authorization, cookies))
                            && verify(SelectToken(authorization, cookies).value).Some?
    ensures user.Some? ==> user == verify(SelectToken(authorization, cookies).value)
  {
    var token := SelectToken(authorization, cookies);
    if Truthy(token) then verify(token.value) else None
  }

  /** authorizeRoles(...roles): next iff the caller's role is listed, else 403. */
  function AuthorizeRoles(roles: seq<string>, user: Claims): (step: Step)
    ensures step == Next || step == Respond(403)
    ensures step == Next <==> exists i :: 0 <= i < |roles| && roles[i] == user.role
  {
    if user.role in roles then Next else Respond(403)
  }

  /** The parts of an incoming request the middlewares read and write. */
  class Request {
    const authorization: Option<string>
    const cookies: Option<map<string, string>>
    var user: Option<Claims>

    constructor (authorization: Option<string>, cookies: Option<map<string, string>>)
      ensures this.authorization == authorization && this.cookies == cookies
      ensures user == None
    {
      this.authorization := authorization;
      this.cookies := cookies;
      user := None;
    }

    /** authenticateToken: on success req.user is the decoded payload and next runs. */
    method AuthenticateToken(verify: Verifier) returns (step: Step)
      modifies this
      ensures step == Next || step == Respond(403)
      ensures step == Next <==> Authenticate(authorization, cookies, verify).Some?
      ensures step == Next ==> user == Authenticate(authorization, cookies, verify)
      ensures step != Next ==> user == old(user)
    {
      var token := HeaderToken(authorization);
      if !Truthy(token) && cookies.Some? {
        token := CookieToken(cookies.value);
      }
      if !Truthy(token) {
        return Respond(403);
      }
      var decoded := verify(token.value);
      if decoded.None? {
        return Respond(403);
      }
      user := decoded;
      step := Next;
    }
  }
}
