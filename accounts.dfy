/** The account lifecycle: registration with an e-mailed verification
    token, verification, re-sending the token, login, and password reset by
    a second, short-lived token. Clocks, token generation, password hashing
    and mail delivery are inputs of each operation. */
module Accounts {
  import opened Domain

  /** A row of the user table. */
  datatype User = User(
    id: nat,
    name: string,
    email: string,
    passwordHash: string,
    role: Role,
    isVerified: bool,
    verificationToken: Option<string>,
    verificationTokenExpiry: Option<int>,
    resetPasswordToken: Option<string>,
    resetPasswordExpiry: Option<int>)

  /** Token lifetimes in milliseconds. */
  const VerificationLifetime: int := 24 * 60 * 60 * 1000
  const ResetLifetime: int := 60 * 60 * 1000

  /** A reply and, when the handler signs one, the payload of the session
      token it returns. */
  datatype AuthReply = AuthReply(reply: Reply, session: Option<Claims>)

  /** Reply messages. */
  const RegisterFieldsMessage := "Name, email and password are required"
  const EmailTakenMessage := "User with this email already exists"
  const RegistrationFailedMessage := "Registration failed"
  const RegisterMailFailedMessage := "Failed to send verification email. Please try again."
  const RegisteredMessage := "Registration successful! Please check your email to verify your account."
  const TokenRequiredMessage := "Verification token is required"
  const InvalidTokenMessage := "Invalid verification token"
  const TokenExpiredMessage := "Verification token has expired. Please register again."
  const AlreadyVerifiedMessage := "Email is already verified"
  const VerifiedMessage := "Email verified successfully!"
  const EmailRequiredMessage := "Email is required"
  const UserNotFoundMessage := "User not found"
  const ResendMailFailedMessage := "Failed to resend verification email"
  const ResentMessage := "Verification email sent! Please check your inbox."
  const LoginFieldsMessage := "Email and password are required"
  const ResetFieldsMessage := "Token and new password are required"
  const ResetRefusedMessage := "Invalid or expired password reset token"
  const ResetDoneMessage := "Password has been reset successfully. You can now log in with your new password."

  const InvalidCredentials := Reply(401, "Invalid email or password")
  const GenericResetReply :=
    Reply(200, "If an account with that email exists, a password reset link has been sent.")

  /** The three `findOne` lookups the handlers make. */
  datatype Lookup = ByEmail(email: string) | ByVerificationToken(token: string) | ByResetToken(token: string)

  predicate Matches(u: User, q: Lookup)
  {
    match q
    case ByEmail(e) => u.email == e
    case ByVerificationToken(t) => u.verificationToken == Some(t)
    case ByResetToken(t) => u.resetPasswordToken == Some(t)
  }

  /** `User.findOne({ where })`: the first row that matches, if any. */
  function FindFirst(users: seq<User>, q: Lookup): (r: Option<nat>)
    ensures r.Some? ==> r.value < |users| && Matches(users[r.value], q)
    ensures r.Some? ==> forall j :: 0 <= j < r.value ==> !Matches(users[j], q)
    ensures r.None? ==> forall j :: 0 <= j < |users| ==> !Matches(users[j], q)
    decreases |users|
  {
    if users == [] then None
    else if Matches(users[0], q) then Some(0)
    else
      match FindFirst(users[1..], q)
      case None => None
      case Some(i) => Some(i + 1)
  }

  /** The payload signed at login and after verification, `{ id, email, role }`. */
  function SessionClaims(u: User): Claims
  {
    Claims(u.id, u.email, RoleName(u.role))
  }

  /** `expiry < new Date()` where a null expiry compares as 0, as in JavaScript. */
  predicate ExpiredAt(expiry: Option<int>, now: int)
  {
    (if expiry.Some? then expiry.value else 0) < now
  }

  /** The role `User.create` is given, `role || 'customer'`, checked against
      the ENUM's two names: a falsy role is `customer`, one of the two names
      is that role, and any other string is refused by the database (None).
      The names are matched exactly, without the database's collation. */
  function RegisteredRole(role: Field): (r: Option<Role>)
    ensures !Truthy(role) ==> r == Some(Customer)
    ensures Truthy(role) && r.Some? ==> RoleName(r.value) == role.s
    ensures r.None? <==> Truthy(role) && role.s != "customer" && role.s != "admin"
  {
    if !Truthy(role) then Some(Customer) else ParseRole(role.s)
  }

  /** The record after a successful verification. */
  function Verified(u: User): User
  {
    u.(isVerified := true, verificationToken := None, verificationTokenExpiry := None)
  }

  /** The record after a successful password reset. */
  function PasswordReplaced(u: User, passwordHash: string): User
  {
    u.(passwordHash := passwordHash, resetPasswordToken := None, resetPasswordExpiry := None)
  }

  /** The second (effective) `login`: 400 when either field is missing, the
      same 401 for an unknown address and for a wrong password, and
      otherwise a session for the account found. Whether the account is
      verified plays no part. `passwordMatches` is `bcrypt.compare`. */
  function Login(users: seq<User>, email: Field, password: Field,
                 passwordMatches: (string, string) -> bool): (r: AuthReply)
    ensures !(Truthy(email) && Truthy(password)) ==>
      r == AuthReply(Reply(400, LoginFieldsMessage), None)
    ensures Truthy(email) && Truthy(password) && FindFirst(users, ByEmail(email.s)).None? ==>
      r == AuthReply(InvalidCredentials, None)
    ensures Truthy(email) && Truthy(password) && FindFirst(users, ByEmail(email.s)).Some? ==>
      var u := users[FindFirst(users, ByEmail(email.s)).value];
      r == if passwordMatches(password.s, u.passwordHash)
           then AuthReply(Reply(200, ""), Some(SessionClaims(u)))
           else AuthReply(InvalidCredentials, None)
    ensures r.session.Some? <==> r.reply.status == 200
    ensures r.session.Some? ==> exists i :: 0 <= i < |users| && users[i].email == email.s
                                    && r.session.value == SessionClaims(users[i])
  {
    if !Truthy(email) || !Truthy(password) then
      AuthReply(Reply(400, LoginFieldsMessage), None)
    else
      match FindFirst(users, ByEmail(email.s))
      case None => AuthReply(InvalidCredentials, None)
      case Some(i) =>
        if !passwordMatches(password.s, users[i].passwordHash) then AuthReply(InvalidCredentials, None)
        else AuthReply(Reply(200, ""), Some(SessionClaims(users[i])))
  }

  /** A lookup gives the same answer on two tables that agree, row by row,
      on whether the row matches. */
  lemma {:induction false} FindFirstAgrees(a: seq<User>, b: seq<User>, q: Lookup)
    requires |a| == |b|
    requires forall j :: 0 <= j < |a| ==> (Matches(a[j], q) <==> Matches(b[j], q))
    ensures FindFirst(a, q) == FindFirst(b, q)
    decreases |a|
  {
    if a != [] && !Matches(a[0], q) {
      FindFirstAgrees(a[1..], b[1..], q);
    }
  }

  /** Login never consults `isVerified`: flipping it on any row changes no reply. */
  lemma LoginIgnoresVerification(users: seq<User>, i: nat, flag: bool, email: Field,
                                 password: Field, passwordMatches: (string, string) -> bool)
    requires i < |users|
    ensures Login(users[i := users[i].(isVerified := flag)], email, password, passwordMatches)
         == Login(users, email, password, passwordMatches)
  {
    var flipped := users[i := users[i].(isVerified := flag)];
    if Truthy(email) {
      FindFirstAgrees(users, flipped, ByEmail(email.s));
      var found := FindFirst(users, ByEmail(email.s));
      if found.Some? && found.value == i {
        assert SessionClaims(flipped[i]) == SessionClaims(users[i]);
      }
    }
  }

  /** An unknown address and a wrong password get the very same reply,
      so a caller cannot tell which accounts exist. */
  lemma LoginFailuresAlike(users: seq<User>, unknown: string, known: string, password: Field,
                           passwordMatches: (string, string) -> bool)
    requires unknown != "" && known != "" && Truthy(password)
    requires FindFirst(users, ByEmail(unknown)).None?
    requires FindFirst(users, ByEmail(known)).Some?
    requires !passwordMatches(password.s, users[FindFirst(users, ByEmail(known)).value].passwordHash)
    ensures Login(users, Text(unknown), password, passwordMatches)
         == Login(users, Text(known), password, passwordMatches)
  {
  }

  /** Once verified, the token finds nobody: a second verification with the
      same token is answered InvalidTokenMessage. */
  lemma VerificationTokenSingleUse(users: seq<User>, i: nat, t: string)
    requires i < |users| && users[i].verificationToken == Some(t)
    requires forall j :: 0 <= j < |users| && j != i ==> users[j].verificationToken != Some(t)
    ensures FindFirst(users[i := Verified(users[i])], ByVerificationToken(t)).None?
  {
    var after := users[i := Verified(users[i])];
    assert forall j :: 0 <= j < |after| ==> !Matches(after[j], ByVerificationToken(t));
  }

  /** After a reset the reset token finds nobody, so it cannot be replayed. */
  lemma ResetTokenSingleUse(users: seq<User>, i: nat, t: string, passwordHash: string)
    requires i < |users| && users[i].resetPasswordToken == Some(t)
    requires forall j :: 0 <= j < |users| && j != i ==> users[j].resetPasswordToken != Some(t)
    ensures FindFirst(users[i := PasswordReplaced(users[i], passwordHash)], ByResetToken(t)).None?
  {
    var after := users[i := PasswordReplaced(users[i], passwordHash)];
    assert forall j :: 0 <= j < |after| ==> !Matches(after[j], ByResetToken(t));
  }

  /** A verified account holds no verification token. */
  predicate TokensConsistent(users: seq<User>)
  {
    forall i :: 0 <= i < |users| && users[i].isVerified ==>
      users[i].verificationToken.None? && users[i].verificationTokenExpiry.None?
  }

  /** Every row rewrite the handlers perform keeps that consistency:
      verifying clears the token, a new row and a re-sent token belong to an
      unverified account, and the reset flow does not touch either field. */
  lemma RowUpdatesKeepTokensConsistent(users: seq<User>, i: nat, added: User, token: string,
                                       expiry: int, passwordHash: string)
    requires TokensConsistent(users) && i < |users|
    ensures TokensConsistent(users[i := Verified(users[i])])
    ensures !added.isVerified ==> TokensConsistent(users + [added])
    ensures !users[i].isVerified ==>
      TokensConsistent(users[i := users[i].(verificationToken := Some(token),
                                            verificationTokenExpiry := Some(expiry))])
    ensures TokensConsistent(users[i := users[i].(resetPasswordToken := Some(token),
                                                  resetPasswordExpiry := Some(expiry))])
    ensures TokensConsistent(users[i := PasswordReplaced(users[i], passwordHash)])
  {
  }

  /** Under that consistency the "already verified" answer of verification
      is never given: any account a token finds is still unverified. */
  lemma AlreadyVerifiedUnreachable(users: seq<User>, t: string)
    requires TokensConsistent(users)
    requires FindFirst(users, ByVerificationToken(t)).Some?
    ensures !users[FindFirst(users, ByVerificationToken(t)).value].isVerified
  {
  }

  /** Emails are unique, ids are unique and below the id counter. */
  ghost predicate WellFormed(users: seq<User>, nextId: nat)
  {
    && (forall i, j :: 0 <= i < j < |users| ==> users[i].email != users[j].email)
    && (forall i, j :: 0 <= i < j < |users| ==> users[i].id != users[j].id)
    && (forall i :: 0 <= i < |users| ==> users[i].id < nextId)
  }

  /** Rewriting a row in place keeps the table well formed as long as its
      id and email stay. */
  lemma RowUpdateKeepsWellFormed(users: seq<User>, nextId: nat, i: nat, u: User)
    requires WellFormed(users, nextId) && i < |users|
    requires u.id == users[i].id && u.email == users[i].email
    ensures WellFormed(users[i := u], nextId)
  {
  }

  /** Under well-formedness, an email lookup finds the one row with that email. */
  lemma EmailLookupUnique(users: seq<User>, nextId: nat, j: nat)
    requires WellFormed(users, nextId) && j < |users|
    ensures FindFirst(users, ByEmail(users[j].email)) == Some(j)
  {
  }

  /** The user table. */
  class UserTable {
    var users: seq<User>
    var nextId: nat

    ghost predicate Valid()
      reads this
    {
      WellFormed(users, nextId) && TokensConsistent(users)
    }

    constructor ()
      ensures Valid() && users == [] && nextId == 1
    {
      users := [];
      nextId := 1;
    }

    /** `register`. `passwordHash` is the bcrypt hash of `password`, `token`
        the freshly generated verification token, and `mailDelivered` whether
        sending the verification mail succeeded. A role outside the ENUM makes
        the insert fail, which the handler answers with 500. */
    method Register(name: Field, email: Field, password: Field, role: Field,
                    passwordHash: string, token: string, now: int, mailDelivered: bool)
      returns (reply: Reply)
      requires Valid()
      modifies this
      ensures Valid()
      ensures !(Truthy(name) && Truthy(email) && Truthy(password)) ==>
        reply == Reply(400, RegisterFieldsMessage)
        && users == old(users) && nextId == old(nextId)
      ensures Truthy(name) && Truthy(email) && Truthy(password)
              && FindFirst(old(users), ByEmail(email.s)).Some? ==>
        reply == Reply(409, EmailTakenMessage)
        && users == old(users) && nextId == old(nextId)
      ensures Truthy(name) && Truthy(email) && Truthy(password)
              && FindFirst(old(users), ByEmail(email.s)).None? && RegisteredRole(role).None? ==>
        reply == Reply(500, RegistrationFailedMessage)
        && users == old(users) && nextId == old(nextId)
      ensures Truthy(name) && Truthy(email) && Truthy(password)
              && FindFirst(old(users), ByEmail(email.s)).None? && RegisteredRole(role).Some? ==>
        && nextId == old(nextId) + 1
        && (mailDelivered ==>
              reply == Reply(201, RegisteredMessage)
              && users == old(users) + [User(old(nextId), name.s, email.s, passwordHash,
                                             RegisteredRole(role).value,
                                             false, Some(token), Some(now + VerificationLifetime),
                                             None, None)])
        && (!mailDelivered ==>
              reply == Reply(500, RegisterMailFailedMessage)
              && users == old(users))
    {
      if !Truthy(name) || !Truthy(email) || !Truthy(password) {
        reply := Reply(400, RegisterFieldsMessage);
        return;
      }
      var existing := FindFirst(users, ByEmail(email.s));
      if existing.Some? {
        reply := Reply(409, EmailTakenMessage);
        return;
      }
      var storedRole := RegisteredRole(role);
      if storedRole.None? {
        reply := Reply(500, RegistrationFailedMessage);
        return;
      }
      var user := User(nextId, name.s, email.s, passwordHash, storedRole.value,
                       false, Some(token), Some(now + VerificationLifetime), None, None);
      users := users + [user];
      nextId := nextId + 1;
      if !mailDelivered {
        // the row is destroyed again; the id counter stays advanced
        users := users[..|users| - 1];
        reply := Reply(500, RegisterMailFailedMessage);
        return;
      }
      reply := Reply(201, RegisteredMessage);
    }

    /** `verifyEmail`: the checks run in this order and the first that fails
        answers: no token, unknown token, expired token, already verified. */
    method VerifyEmail(token: Field, now: int) returns (result: AuthReply)
      requires Valid()
      modifies this
      ensures Valid() && nextId == old(nextId) && |users| == |old(users)|
      ensures !Truthy(token) ==>
        result == AuthReply(Reply(400, TokenRequiredMessage), None) && users == old(users)
      ensures Truthy(token) && FindFirst(old(users), ByVerificationToken(token.s)).None? ==>
        result == AuthReply(Reply(400, InvalidTokenMessage), None) && users == old(users)
      ensures Truthy(token) && FindFirst(old(users), ByVerificationToken(token.s)).Some? ==>
        var i := FindFirst(old(users), ByVerificationToken(token.s)).value;
        var u := old(users)[i];
        && (ExpiredAt(u.verificationTokenExpiry, now) ==>
              result == AuthReply(Reply(400, TokenExpiredMessage), None)
              && users == old(users))
        && (!ExpiredAt(u.verificationTokenExpiry, now) && u.isVerified ==>
              result == AuthReply(Reply(400, AlreadyVerifiedMessage), None)
              && users == old(users))
        && (!ExpiredAt(u.verificationTokenExpiry, now) && !u.isVerified ==>
              result == AuthReply(Reply(200, VerifiedMessage), Some(SessionClaims(u)))
              && users == old(users)[i := Verified(u)])
    {
      if !Truthy(token) {
        result := AuthReply(Reply(400, TokenRequiredMessage), None);
        return;
      }
      var found := FindFirst(users, ByVerificationToken(token.s));
      if found.None? {
        result := AuthReply(Reply(400, InvalidTokenMessage), None);
        return;
      }
      var i := found.value;
      var user := users[i];
      if ExpiredAt(user.verificationTokenExpiry, now) {
        result := AuthReply(Reply(400, TokenExpiredMessage), None);
        return;
      }
      if user.isVerified {
        result := AuthReply(Reply(400, AlreadyVerifiedMessage), None);
        return;
      }
      RowUpdateKeepsWellFormed(users, nextId, i, Verified(user));
      users := users[i := Verified(user)];
      result := AuthReply(Reply(200, VerifiedMessage), Some(SessionClaims(user)));
    }

    /** `resendVerification`. The new token is saved before the mail is
        sent, so a failed delivery answers 500 with the token replaced. */
    method ResendVerification(email: Field, token: string, now: int, mailDelivered: bool)
      returns (reply: Reply)
      requires Valid()
      modifies this
      ensures Valid() && nextId == old(nextId) && |users| == |old(users)|
      ensures !Truthy(email) ==> reply == Reply(400, EmailRequiredMessage) && users == old(users)
      ensures Truthy(email) && FindFirst(old(users), ByEmail(email.s)).None? ==>
        reply == Reply(404, UserNotFoundMessage) && users == old(users)
      ensures Truthy(email) && FindFirst(old(users), ByEmail(email.s)).Some? ==>
        var i := FindFirst(old(users), ByEmail(email.s)).value;
        var u := old(users)[i];
        && (u.isVerified ==> reply == Reply(400, AlreadyVerifiedMessage) && users == old(users))
        && (!u.isVerified ==>
              && users == old(users)[i := u.(verificationToken := Some(token),
                                             verificationTokenExpiry := Some(now + VerificationLifetime))]
              && reply == if mailDelivered
                          then Reply(200, ResentMessage)
                          else Reply(500, ResendMailFailedMessage))
    {
      if !Truthy(email) {
        reply := Reply(400, EmailRequiredMessage);
        return;
      }
      var found := FindFirst(users, ByEmail(email.s));
      if found.None? {
        reply := Reply(404, UserNotFoundMessage);
        return;
      }
      var i := found.value;
      var user := users[i];
      if user.isVerified {
        reply := Reply(400, AlreadyVerifiedMessage);
        return;
      }
      user := user.(verificationToken := Some(token), verificationTokenExpiry := Some(now + VerificationLifetime));
      RowUpdateKeepsWellFormed(users, nextId, i, user);
      users := users[i := user];
      if !mailDelivered {
        reply := Reply(500, ResendMailFailedMessage);
        return;
      }
      reply := Reply(200, ResentMessage);
    }

    /** `requestPasswordReset`: with an address given, the reply is the same
        generic one whether or not the account exists or is verified; only
        an existing verified account gets a reset token, valid for an hour. */
    method RequestPasswordReset(email: Field, token: string, now: int) returns (reply: Reply)
      requires Valid()
      modifies this
      ensures Valid() && nextId == old(nextId) && |users| == |old(users)|
      ensures !Truthy(email) ==> reply == Reply(400, EmailRequiredMessage) && users == old(users)
      ensures Truthy(email) ==> reply == GenericResetReply
      ensures Truthy(email) ==>
        var found := FindFirst(old(users), ByEmail(email.s));
        if found.Some? && old(users)[found.value].isVerified
        then users == old(users)[found.value := old(users)[found.value].(
               resetPasswordToken := Some(token), resetPasswordExpiry := Some(now + ResetLifetime))]
        else users == old(users)
    {
      if !Truthy(email) {
        reply := Reply(400, EmailRequiredMessage);
        return;
      }
      var found := FindFirst(users, ByEmail(email.s));
      if found.None? || !users[found.value].isVerified {
        reply := GenericResetReply;
        return;
      }
      var i := found.value;
      var user := users[i];
      user := user.(resetPasswordToken := Some(token), resetPasswordExpiry := Some(now + ResetLifetime));
      RowUpdateKeepsWellFormed(users, nextId, i, user);
      users := users[i := user];
      reply := GenericResetReply;
    }

    /** `resetPassword`: refused without both fields, for an unknown token,
        and for a missing or past expiry; otherwise the password hash is
        replaced and the reset token cleared. */
    method ResetPassword(token: Field, password: Field, passwordHash: string, now: int)
      returns (reply: Reply)
      requires Valid()
      modifies this
      ensures Valid() && nextId == old(nextId) && |users| == |old(users)|
      ensures !(Truthy(token) && Truthy(password)) ==>
        reply == Reply(400, ResetFieldsMessage) && users == old(users)
      ensures Truthy(token) && Truthy(password) ==>
        var found := FindFirst(old(users), ByResetToken(token.s));
        if found.None? || old(users)[found.value].resetPasswordExpiry.None?
           || old(users)[found.value].resetPasswordExpiry.value < now
        then reply == Reply(400, ResetRefusedMessage) && users == old(users)
        else
          && reply == Reply(200, ResetDoneMessage)
          && users == old(users)[found.value := PasswordReplaced(old(users)[found.value], passwordHash)]
    {
      if !Truthy(token) || !Truthy(password) {
        reply := Reply(400, ResetFieldsMessage);
        return;
      }
      var found := FindFirst(users, ByResetToken(token.s));
      if found.None? || users[found.value].resetPasswordExpiry.None?
         || users[found.value].resetPasswordExpiry.value < now {
        reply := Reply(400, ResetRefusedMessage);
        return;
      }
      var i := found.value;
      var user := users[i];
      RowUpdateKeepsWellFormed(users, nextId, i, PasswordReplaced(user, passwordHash));
      users := users[i := PasswordReplaced(user, passwordHash)];
      reply := Reply(200, ResetDoneMessage);
    }
  }
}
