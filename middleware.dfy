/** The two request guards: bearer token authentication and the
    administrator check. Of the routers, only the current-user endpoint is
    wired behind authentication, and none behind the administrator check.
    Signature checking (`jwt.verify` with the server secret, including its
    expiry test) is an input: a function from a token to the claims it
    carries, if valid. */
module Middleware {
  import opened Domain
  import opened Text
  import Accounts

  const TokenRequiredMessage := "Access token required"
  const InvalidTokenMessage := "Invalid or expired token"
  const AdminRequiredMessage := "Admin access required"

  /** `authHeader && authHeader.split(' ')[1]`, with a falsy result (no
      header, an empty header, no second field, an empty second field) as
      None. */
  function ExtractToken(header: Option<string>): (r: Option<string>)
    ensures r.Some? <==>
      (header.Some? && |Split(header.value, ' ')| >= 2 && Split(header.value, ' ')[1] != "")
    ensures r.Some? ==> r.value == Split(header.value, ' ')[1]
    ensures r.Some? ==> r.value != "" && ' ' !in r.value
  {
    if header.None? || header.value == "" then None
    else
      var fields := Split(header.value, ' ');
      if |fields| < 2 || fields[1] == "" then None else Some(fields[1])
  }

  /** A header of the form `<scheme> <token>`, possibly followed by more
      space-separated text, yields exactly the token. */
  lemma BearerHeader(scheme: string, token: string, rest: string)
    requires ' ' !in scheme && ' ' !in token && token != ""
    requires rest == "" || rest[0] == ' '
    ensures ExtractToken(Some(scheme + " " + token + rest)) == Some(token)
  {
    var h := scheme + " " + token + rest;
    assert h == scheme + [' '] + (token + rest);
    SplitAfterPiece(scheme, ' ', token + rest);
    if rest == "" {
      assert token + rest == token;
      SplitNoSeparator(token, ' ');
    } else {
      assert token + rest == token + [' '] + rest[1..];
      SplitAfterPiece(token, ' ', rest[1..]);
    }
  }

  /** Conversely, every token extracted has that shape around it: the header
      is a space-free first field, a space, the token, and then either
      nothing or more text beginning with a space. */
  lemma ExtractedHeaderShape(h: string)
    requires ExtractToken(Some(h)).Some?
    ensures exists scheme: string, rest: string {:trigger scheme + " " + ExtractToken(Some(h)).value + rest} ::
      && ' ' !in scheme && (rest == "" || rest[0] == ' ')
      && h == scheme + " " + ExtractToken(Some(h)).value + rest
  {
    var fields := Split(h, ' ');
    var t := fields[1];
    assert Join(fields, ' ') == fields[0] + [' '] + Join(fields[1..], ' ');
    var rest := if |fields| == 2 then "" else [' '] + Join(fields[2..], ' ');
    assert fields[1..][0] == t;
    if |fields| > 2 {
      assert fields[1..][1..] == fields[2..];
    }
    assert Join(fields[1..], ' ') == t + rest;
    assert h == fields[0] + " " + t + rest;
  }

  /** A header holding no space (a bare token, or a scheme alone) has no
      second field and is refused. */
  lemma NoSpaceNoToken(h: string)
    requires ' ' !in h
    ensures ExtractToken(Some(h)).None?
  {
    SplitNoSeparator(h, ' ');
  }

  /** The usual header "Bearer abc" yields "abc". */
  lemma BearerExample()
    ensures ExtractToken(Some("Bearer abc")) == Some("abc")
  {
    assert "Bearer abc" == "Bearer" + " " + "abc" + "";
    BearerHeader("Bearer", "abc", "");
  }

  /** What `authenticateToken` does with a request. */
  datatype Gate = Proceed(claims: Claims) | Refuse(reply: Reply)

  /** `authenticateToken`'s decision: 401 without a token, 403 when
      verification fails, and otherwise the decoded claims. */
  function Authenticate(header: Option<string>, verify: string -> Option<Claims>): (r: Gate)
    ensures r == Refuse(Reply(401, TokenRequiredMessage)) <==> ExtractToken(header).None?
    ensures r == Refuse(Reply(403, InvalidTokenMessage)) <==>
      (ExtractToken(header).Some? && verify(ExtractToken(header).value).None?)
    ensures r.Proceed? <==> (ExtractToken(header).Some? && verify(ExtractToken(header).value).Some?)
    ensures r.Proceed? ==> r.claims == verify(ExtractToken(header).value).value
  {
    match ExtractToken(header)
    case None => Refuse(Reply(401, TokenRequiredMessage))
    case Some(token) =>
      match verify(token)
      case None => Refuse(Reply(403, InvalidTokenMessage))
      case Some(claims) => Proceed(claims)
  }

  /** The request as the guards see it: its Authorization header, the
      `req.user` slot, and how many times the `next` continuation ran. */
  class Request {
    const authorization: Option<string>
    var user: Option<Claims>
    var nextCalls: nat

    constructor (authorization: Option<string>)
      ensures this.authorization == authorization && user.None? && nextCalls == 0
    {
      this.authorization := authorization;
      user := None;
      nextCalls := 0;
    }

    /** `authenticateToken(req, res, next)`: on success sets `req.user` to
        the decoded claims and calls `next` once; on refusal answers and
        leaves the request as it was. */
    method AuthenticateToken(verify: string -> Option<Claims>) returns (reply: Option<Reply>)
      modifies this
      ensures var gate := Authenticate(authorization, verify);
        if gate.Proceed?
        then reply.None? && user == Some(gate.claims) && nextCalls == old(nextCalls) + 1
        else reply == Some(gate.reply) && user == old(user) && nextCalls == old(nextCalls)
    {
      var gate := Authenticate(authorization, verify);
      match gate
      case Refuse(r) =>
        reply := Some(r);
      case Proceed(claims) =>
        user := Some(claims);
        nextCalls := nextCalls + 1;
        reply := None;
    }
  }

  /** What `requireAdmin` does: call `next`, answer 403, or throw, which it
      does when `req.user` is unset (reading `.role` of undefined). */
  datatype AdminGate = Next | Forbidden(reply: Reply) | Fault

  /** `requireAdmin`: `next` exactly for claims whose role is "admin". */
  function RequireAdmin(user: Option<Claims>): (r: AdminGate)
    ensures r == Next <==> (user.Some? && user.value.role == "admin")
    ensures r == Forbidden(Reply(403, AdminRequiredMessage)) <==> (user.Some? && user.value.role != "admin")
    ensures r == Fault <==> user.None?
  {
    match user
    case None => Fault
    case Some(c) => if c.role != "admin" then Forbidden(Reply(403, AdminRequiredMessage)) else Next
  }

  /** Behind `authenticateToken`, `requireAdmin` never throws, and it lets
      through exactly the admin claims. */
  lemma AdminChain(header: Option<string>, verify: string -> Option<Claims>)
    requires Authenticate(header, verify).Proceed?
    ensures RequireAdmin(Some(Authenticate(header, verify).claims)) != Fault
    ensures RequireAdmin(Some(Authenticate(header, verify).claims)) == Next
        <==> verify(ExtractToken(header).value).value.role == "admin"
  {
  }

  /** A session issued by login or verification passes the administrator
      check exactly when the account's role is admin. */
  lemma SessionAdminIff(u: Accounts.User)
    ensures RequireAdmin(Some(Accounts.SessionClaims(u))) == Next <==> u.role == Admin
  {
  }
}
