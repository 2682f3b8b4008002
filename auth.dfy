/** The account endpoints of backend/app/api/auth.py over the user table: registration,
    login, the security-question lookup and the password reset. The database is the map
    from user name to stored record; bcrypt is an ideal salted hash, the salt of each call
    being a parameter. */
module Auth {
  import opened Wrappers
  import opened Strings
  import opened Schemas

  /** A bcrypt digest: the salt it was made with and what it was made from. */
  datatype Digest = Digest(salt: nat, secret: string)

  /** `get_password_hash` */
  function Hash(salt: nat, password: string): (d: Digest)
    ensures d.salt == salt
  {
    Digest(salt, password)
  }

  /** `verify_password`: a digest accepts exactly the password it was made from, whatever the
      salt. */
  predicate Verify(password: string, d: Digest) {
    d.secret == password
  }

  /** The `User` row. */
  datatype User = User(hashedPassword: Digest, securityQuestion: string, securityAnswer: string)

  /** The answer as it is stored and compared: `answer.lower().strip()`. */
  function Normalize(answer: string): (r: string)
    ensures Trimmed(r)
    ensures |r| <= |answer|
    ensures exists pre, post :: AllSpace(pre) && AllSpace(post) && Lower(answer) == pre + r + post
  {
    StripDecomposes(Lower(answer));
    Strip(Lower(answer))
  }

  /** The stored form of a padded, capitalised answer. */
  lemma NormalizeExample()
    ensures Normalize(" Blue ") == "blue"
  {
    assert Lower(" Blue ") == " blue ";
    StripUnique(" ", "blue", " ");
    assert " " + "blue" + " " == " blue ";
  }

  /** A successful login: the message and the user name. */
  datatype LoginOk = LoginOk(message: string, username: string)

  const Registered: string := "User registered successfully"
  const LoggedIn: string := "Login successful"
  const PasswordReset: string := "Password reset successfully"
  const Taken: HttpError := HttpError(400, "Username already registered")
  const InvalidCredentials: HttpError := HttpError(400, "Invalid username or password")
  const UserNotFound: HttpError := HttpError(404, "User not found")
  const IncorrectAnswer: HttpError := HttpError(400, "Incorrect security answer")

  class UserTable {
    var users: map<string, User>

    constructor()
      ensures users == map[]
    {
      users := map[];
    }

    /** `login`: the same error for a name nobody registered and for a wrong password. */
    function Login(username: string, password: string): (r: Result<LoginOk, HttpError>)
      reads this
      ensures r.Success? <==> username in users && Verify(password, users[username].hashedPassword)
      ensures r.Success? ==> r.value == LoginOk(LoggedIn, username)
      ensures r.Failure? ==> r.error == InvalidCredentials
    {
      if username !in users then Failure(InvalidCredentials)
      else if !Verify(password, users[username].hashedPassword) then Failure(InvalidCredentials)
      else Success(LoginOk(LoggedIn, username))
    }

    /** `get_security_question`; the request may lack the name altogether. */
    function GetSecurityQuestion(username: Option<string>): (r: Result<string, HttpError>)
      reads this
      ensures r.Success? <==> username.Some? && username.value in users
      ensures r.Success? ==> r.value == users[username.value].securityQuestion
      ensures r.Failure? ==> r.error == UserNotFound
    {
      if username.None? || username.value !in users then Failure(UserNotFound)
      else Success(users[username.value].securityQuestion)
    }

    /** `register` */
    method Register(username: string, password: string, question: string, answer: string, salt: nat)
      returns (r: Result<string, HttpError>)
      modifies this
      ensures username in old(users) ==> r == Failure(Taken) && users == old(users)
      ensures username !in old(users) ==>
                && r == Success(Registered)
                && users == old(users)[username := User(Hash(salt, password), question, Normalize(answer))]
      ensures username !in old(users) ==> |users| == |old(users)| + 1
      ensures username !in old(users) ==>
                Login(username, password).Success? && GetSecurityQuestion(Some(username)) == Success(question)
    {
      if username in users {
        return Failure(Taken);
      }
      var hashedPassword := Hash(salt, password);
      users := users[username := User(hashedPassword, question, Normalize(answer))];
      return Success(Registered);
    }

    /** `reset_password` */
    method ResetPassword(username: string, answer: string, newPassword: string, salt: nat)
      returns (r: Result<string, HttpError>)
      modifies this
      ensures username !in old(users) ==> r == Failure(UserNotFound) && users == old(users)
      ensures username in old(users) && old(users)[username].securityAnswer != Normalize(answer)
              ==> r == Failure(IncorrectAnswer) && users == old(users)
      ensures username in old(users) && old(users)[username].securityAnswer == Normalize(answer)
              ==> && r == Success(PasswordReset)
                  && users == old(users)[username := old(users)[username].(hashedPassword := Hash(salt, newPassword))]
      ensures r.Success? ==> forall p :: Login(username, p).Success? <==> p == newPassword
      ensures forall v :: v != username ==> (v in users <==> v in old(users))
      ensures forall v :: v != username && v in users ==> users[v] == old(users)[v]
    {
      if username !in users {
        return Failure(UserNotFound);
      }
      var user := users[username];
      if user.securityAnswer != Normalize(answer) {
        return Failure(IncorrectAnswer);
      }
      users := users[username := user.(hashedPassword := Hash(salt, newPassword))];
      return Success(PasswordReset);
    }
  }

  /** A digest accepts its own password and no other. */
  lemma HashVerifies(salt: nat, password: string, attempt: string)
    ensures Verify(attempt, Hash(salt, password)) <==> attempt == password
  {
  }

  /** Case never matters to the answer check. */
  lemma NormalizeIgnoresCase(answer: string)
    ensures Normalize(Lower(answer)) == Normalize(answer)
  {
    LowerIdempotent(answer);
  }

  /** Surrounding whitespace never matters to the answer check. */
  lemma {:induction false} NormalizeIgnoresPadding(pre: string, answer: string, post: string)
    requires AllSpace(pre) && AllSpace(post)
    ensures Normalize(pre + answer + post) == Normalize(answer)
  {
    LowerAppend(pre + answer, post);
    LowerAppend(pre, answer);
    assert Lower(pre) == pre && Lower(post) == post;
    StripPadded(pre, Lower(answer), post);
  }

  /** A stored answer is in normal form, so typing it back exactly as stored is accepted. */
  lemma NormalizeIdempotent(answer: string)
    ensures Normalize(Normalize(answer)) == Normalize(answer)
  {
    var l := Lower(answer);
    LowerStripCommute(l);
    LowerIdempotent(answer);
    StripIdempotent(l);
  }

  /** The answer given at registration, or any spelling of it that differs only in case and
      surrounding whitespace, passes the reset check. */
  lemma RegisteredAnswerAccepted(answer: string, pre: string, post: string)
    requires AllSpace(pre) && AllSpace(post)
    ensures Normalize(pre + Lower(answer) + post) == Normalize(answer)
  {
    NormalizeIgnoresPadding(pre, Lower(answer), post);
    NormalizeIgnoresCase(answer);
  }
}
