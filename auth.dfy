/** Registration, authentication and role lookup of Service/AuthService.java,
    over the user repository's contents. The password encoder and the token
    issuer are opaque collaborators, given as function values. */
module Auth {
  import opened Wrappers
  import opened Dto

  /** A stored account. `password` holds the encoded password; `role` is the
      nullable role string. */
  datatype User = User(username: string, password: string, email: string, role: Option<string>)

  /** The collaborators the service is wired with: `PasswordEncoder.encode`,
      `PasswordEncoder.matches` and `JwtUtil.generateToken`. */
  datatype Crypto = Crypto(
    encode: string -> string,
    matches: (string, string) -> bool,
    generateToken: string -> string)

  /** The exceptions the service raises, with their messages, and a failure of
      the repository's `save`. */
  datatype AuthError =
    | UserAlreadyExists(message: string)
    | UserNotFound(message: string)
    | StorageError

  const USERNAME_TAKEN := "Username is already taken!"
  const EMAIL_TAKEN := "Email is already registered!"
  const BAD_CREDENTIALS := "Invalid username or password!"
  const NO_SUCH_USER := "User not found!"

  /** The reply of `getUserRole`. */
  datatype RoleResponse = RoleResponse(username: string, role: Option<string>)

  // ---------------------------------------------------------------------
  // The repository's finders

  predicate HasUsername(users: seq<User>, username: string) {
    exists i :: 0 <= i < |users| && users[i].username == username
  }

  predicate HasEmail(users: seq<User>, email: string) {
    exists i :: 0 <= i < |users| && users[i].email == email
  }

  /** `findByUsername`: the first stored user with that username, if any. */
  function FindByUsername(users: seq<User>, username: string): (u: Option<User>)
    ensures u.Some? <==> HasUsername(users, username)
    ensures u.Some? ==> exists k :: 0 <= k < |users| && users[k] == u.value &&
                                   forall j :: 0 <= j < k ==> users[j].username != username
    ensures u.Some? ==> u.value.username == username
  {
    if users == [] then None
    else if users[0].username == username then Some(users[0])
    else
      var u := FindByUsername(users[1..], username);
      assert HasUsername(users, username) ==> HasUsername(users[1..], username) by {
        if HasUsername(users, username) {
          var i :| 0 <= i < |users| && users[i].username == username;
          assert users[1..][i - 1] == users[i];
        }
      }
      assert u.Some? ==> exists k :: 0 <= k < |users| && users[k] == u.value &&
                                     forall j :: 0 <= j < k ==> users[j].username != username by {
        if u.Some? {
          var k :| 0 <= k < |users[1..]| && users[1..][k] == u.value &&
                   forall j :: 0 <= j < k ==> users[1..][j].username != username;
          assert users[k + 1] == u.value;
          forall j | 0 <= j < k + 1 ensures users[j].username != username {
            if j > 0 { assert users[j] == users[1..][j - 1]; }
          }
        }
      }
      u
  }

  /** `findByEmail`: some stored user with that email, if any. */
  function FindByEmail(users: seq<User>, email: string): (u: Option<User>)
    ensures u.Some? <==> HasEmail(users, email)
    ensures u.Some? ==> u.value in users && u.value.email == email
  {
    if users == [] then None
    else if users[0].email == email then Some(users[0])
    else
      var u := FindByEmail(users[1..], email);
      assert HasEmail(users, email) ==> HasEmail(users[1..], email) by {
        if HasEmail(users, email) {
          var i :| 0 <= i < |users| && users[i].email == email;
          assert users[1..][i - 1] == users[i];
        }
      }
      u
  }

  /** `isEmailExists`. */
  function IsEmailExists(users: seq<User>, email: string): (b: bool)
    ensures b <==> exists i :: 0 <= i < |users| && users[i].email == email
  {
    FindByEmail(users, email).Some?
  }

  /** `isUsernameExists`. */
  function IsUsernameExists(users: seq<User>, username: string): (b: bool)
    ensures b <==> exists i :: 0 <= i < |users| && users[i].username == username
  {
    FindByUsername(users, username).Some?
  }

  /** No two stored users share a username or an email. */
  predicate UniqueIdentities(users: seq<User>) {
    forall i, j :: 0 <= i < j < |users| ==>
      users[i].username != users[j].username && users[i].email != users[j].email
  }

  // ---------------------------------------------------------------------
  // registerUser

  /** The account `registerUser` builds from a request. */
  function NewUser(request: RegistrationRequest, crypto: Crypto): (u: User)
    ensures u.username == request.username && u.email == request.email
    ensures u.password == crypto.encode(request.password)
    ensures u.role == request.role
  {
    User(request.username, crypto.encode(request.password), request.email, request.role)
  }

  /** The repository contents after `registerUser(request)`, or its exception.
      `saveFails` stands for an exception raised by the repository's `save`. */
  function Register(users: seq<User>, request: RegistrationRequest, crypto: Crypto, saveFails: bool)
    : (res: Result<seq<User>, AuthError>)
    // the username is checked first
    ensures HasUsername(users, request.username) ==>
              res == Failure(UserAlreadyExists(USERNAME_TAKEN))
    ensures !HasUsername(users, request.username) && HasEmail(users, request.email) ==>
              res == Failure(UserAlreadyExists(EMAIL_TAKEN))
    ensures res.Failure? && res.error == StorageError <==>
              !HasUsername(users, request.username) && !HasEmail(users, request.email) && saveFails
    // on success exactly one user is added, with the encoded password
    ensures res.Success? ==>
              res.value == users + [User(request.username, crypto.encode(request.password), request.email, request.role)]
    ensures res.Success? ==> UniqueIdentities(users) ==> UniqueIdentities(res.value)
  {
    if IsUsernameExists(users, request.username) then Failure(UserAlreadyExists(USERNAME_TAKEN))
    else if IsEmailExists(users, request.email) then Failure(UserAlreadyExists(EMAIL_TAKEN))
    else if saveFails then Failure(StorageError)
    else
      var users' := users + [NewUser(request, crypto)];
      assert UniqueIdentities(users) ==> UniqueIdentities(users') by {
        if UniqueIdentities(users) {
          forall i, j | 0 <= i < j < |users'|
            ensures users'[i].username != users'[j].username && users'[i].email != users'[j].email
          {
            if j == |users| {
              assert users'[i] == users[i];
            }
          }
        }
      }
      Success(users')
  }

  /** Registration succeeds exactly when neither the username nor the email is
      taken and the repository accepts the new account. */
  lemma RegisterSucceedsIff(users: seq<User>, request: RegistrationRequest, crypto: Crypto, saveFails: bool)
    ensures Register(users, request, crypto, saveFails).Success? <==>
              !HasUsername(users, request.username) && !HasEmail(users, request.email) && !saveFails
  {
  }

  // ---------------------------------------------------------------------
  // authenticateUser and getUserRole

  /** `authenticateUser`: a token for the username, or one and the same failure
      whether the user is unknown or the password is wrong. */
  function AuthenticateUser(users: seq<User>, crypto: Crypto, request: LoginRequest)
    : (res: Result<string, AuthError>)
    ensures res.Failure? ==> res.error == UserNotFound(BAD_CREDENTIALS)
    ensures !HasUsername(users, request.username) ==> res.Failure?
    ensures res.Success? ==> res.value == crypto.generateToken(request.username)
    ensures UniqueIdentities(users) ==>
              (res.Success? <==> exists i :: 0 <= i < |users| && users[i].username == request.username &&
                                            crypto.matches(request.password, users[i].password))
  {
    var found := FindByUsername(users, request.username);
    assert UniqueIdentities(users) && found.Some? ==>
             forall i :: 0 <= i < |users| && users[i].username == request.username ==> users[i] == found.value;
    if found.None? || !crypto.matches(request.password, found.value.password) then
      Failure(UserNotFound(BAD_CREDENTIALS))
    else
      Success(crypto.generateToken(found.value.username))
  }

  /** `getUserRole`: the username with the stored role, or `UserNotFound`. */
  function GetUserRole(users: seq<User>, username: string): (res: Result<RoleResponse, AuthError>)
    ensures res.Failure? <==> !HasUsername(users, username)
    ensures res.Failure? ==> res.error == UserNotFound(NO_SUCH_USER)
    ensures res.Success? ==> res.value.username == username
    ensures res.Success? ==> exists i :: 0 <= i < |users| && users[i].username == username &&
                                         users[i].role == res.value.role
    ensures res.Success? && UniqueIdentities(users) ==>
              forall i :: 0 <= i < |users| && users[i].username == username ==> users[i].role == res.value.role
  {
    var found := FindByUsername(users, username);
    if found.None? then Failure(UserNotFound(NO_SUCH_USER))
    else Success(RoleResponse(username, found.value.role))
  }

  // ---------------------------------------------------------------------
  // The service object: its repository is the one piece of state it changes

  class AuthService {
    /** The contents of the user repository. */
    var users: seq<User>
    const crypto: Crypto

    ghost predicate Valid()
      reads this
    {
      UniqueIdentities(users)
    }

    constructor (crypto: Crypto, users: seq<User>)
      ensures this.crypto == crypto && this.users == users
      ensures Valid() <==> UniqueIdentities(users)
    {
      this.crypto := crypto;
      this.users := users;
    }

    /** `registerUser`: checks the username, then the email, then saves the new
        account. The repository is unchanged on every failure. */
    method RegisterUser(request: RegistrationRequest, saveFails: bool) returns (outcome: Outcome<AuthError>)
      modifies this
      ensures old(Valid()) ==> Valid()
      ensures match Register(old(users), request, crypto, saveFails)
              case Success(users') => outcome == Pass && users == users'
              case Failure(e) => outcome == Fail(e) && users == old(users)
    {
      if IsUsernameExists(users, request.username) {
        return Fail(UserAlreadyExists(USERNAME_TAKEN));
      }
      if IsEmailExists(users, request.email) {
        return Fail(UserAlreadyExists(EMAIL_TAKEN));
      }
      var user := NewUser(request, crypto);
      if saveFails {
        return Fail(StorageError);
      }
      users := users + [user];
      return Pass;
    }
  }
}
