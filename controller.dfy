/** The decision flow of Controller/AuthController.java: each endpoint calls the
    two services and maps what happens to an HTTP status. Response bodies are
    kept only where they carry data (the token, the role). */
module Controller {
  import opened Wrappers
  import opened Dto
  import opened Otp
  import opened Auth

  datatype Status = Ok | BadRequest | Unauthorized | NotFound | Conflict | InternalServerError {
    function Code(): int {
      match this
      case Ok => 200
      case BadRequest => 400
      case Unauthorized => 401
      case NotFound => 404
      case Conflict => 409
      case InternalServerError => 500
    }
  }

  datatype LoginReply = LoginReply(status: Status, token: Option<string>)

  datatype RoleReply = RoleReply(status: Status, role: Option<RoleResponse>)

  /** The status `verifyOtp` answers with once the code has been accepted,
      according to what `registerUser` did. */
  function RegistrationStatus(res: Result<seq<User>, AuthError>): (status: Status)
    ensures status == Ok <==> res.Success?
    ensures status == Conflict <==> res.Failure? && res.error.UserAlreadyExists?
    ensures status == InternalServerError <==> res.Failure? && !res.error.UserAlreadyExists?
    ensures status.Code() in {200, 409, 500}
  {
    match res
    case Success(_) => Ok
    case Failure(UserAlreadyExists(_)) => Conflict
    case Failure(_) => InternalServerError
  }

  class AuthController {
    const authService: AuthService
    const otpService: OTPService

    constructor (authService: AuthService, otpService: OTPService)
      ensures this.authService == authService && this.otpService == otpService
    {
      this.authService := authService;
      this.otpService := otpService;
    }

    /** `register`: refuses an email that already has an account; otherwise
        issues a code and mails it. A failed mailing answers 500 but leaves the
        issued code pending. Only the email is checked here, not the username. */
    method Register(request: RegistrationRequest, r: Draw, now: int, mailFails: bool) returns (status: Status)
      requires otpService.Valid()
      modifies otpService
      ensures otpService.Valid()
      ensures HasEmail(authService.users, request.email) ==>
                status == Conflict && otpService.State() == old(otpService.State())
      ensures !HasEmail(authService.users, request.email) ==>
                otpService.State() == Issue(old(otpService.State()), request.email, FormatCode(r), now) &&
                status == (if mailFails then InternalServerError else Ok)
    {
      if IsEmailExists(authService.users, request.email) {
        return Conflict;
      }
      var otp := otpService.GenerateOTP(request.email, r, now);
      if mailFails {
        return InternalServerError;
      }
      return Ok;
    }

    /** `verifyOtp`: checks (and possibly consumes) the code first; only an
        accepted code leads to `registerUser`, whose outcome decides the status. */
    method VerifyOtp(otpRequest: OTPVerificationRequest, now: int, saveFails: bool) returns (status: Status)
      requires otpRequest.Admissible()
      requires otpService.Valid()
      modifies otpService, authService
      ensures otpService.Valid()
      ensures old(authService.Valid()) ==> authService.Valid()
      ensures otpService.State() == Verify(old(otpService.State()), otpRequest.email, otpRequest.otp, now).store
      ensures !Verify(old(otpService.State()), otpRequest.email, otpRequest.otp, now).ok ==>
                status == BadRequest && authService.users == old(authService.users)
      ensures Verify(old(otpService.State()), otpRequest.email, otpRequest.otp, now).ok ==>
                var res := Auth.Register(old(authService.users), RequestFromOtp(otpRequest), authService.crypto, saveFails);
                status == RegistrationStatus(res) &&
                authService.users == (if res.Success? then res.value else old(authService.users))
      ensures status == Ok <==>
                Verify(old(otpService.State()), otpRequest.email, otpRequest.otp, now).ok &&
                Auth.Register(old(authService.users), RequestFromOtp(otpRequest), authService.crypto, saveFails).Success?
      ensures status == Ok ==>
                authService.users == old(authService.users) +
                  [User(otpRequest.username, authService.crypto.encode(otpRequest.password), otpRequest.email, None)]
      ensures status != Ok ==> authService.users == old(authService.users)
    {
      var verified := otpService.VerifyOTP(otpRequest.email, otpRequest.otp, now);
      if !verified {
        return BadRequest;
      }
      var registrationRequest := RequestFromOtp(otpRequest);
      var outcome := authService.RegisterUser(registrationRequest, saveFails);
      match outcome {
        case Pass => return Ok;
        case Fail(UserAlreadyExists(_)) => return Conflict;
        case Fail(_) => return InternalServerError;
      }
    }

    /** `login`: 200 with the token, or 401 for any failure. */
    function Login(request: LoginRequest): (reply: LoginReply)
      reads authService
      ensures reply.status == Ok || reply.status == Unauthorized
      ensures reply.status == Ok <==> AuthenticateUser(authService.users, authService.crypto, request).Success?
      ensures reply.status == Ok ==> reply.token == Some(authService.crypto.generateToken(request.username))
      ensures reply.status == Unauthorized ==> reply.token == None
      ensures !HasUsername(authService.users, request.username) ==> reply.status == Unauthorized
    {
      match AuthenticateUser(authService.users, authService.crypto, request)
      case Success(token) => LoginReply(Ok, Some(token))
      case Failure(_) => LoginReply(Unauthorized, None)
    }

    /** `getRole`: 200 with the username and its stored role, or 404. */
    function GetRole(username: string): (reply: RoleReply)
      reads authService
      ensures reply.status == NotFound <==> !HasUsername(authService.users, username)
      ensures reply.status == Ok || reply.status == NotFound
      ensures reply.status == Ok ==>
                reply.role.Some? && reply.role.value.username == username &&
                (exists i :: 0 <= i < |authService.users| && authService.users[i].username == username &&
                             authService.users[i].role == reply.role.value.role)
      ensures reply.status == NotFound ==> reply.role == None
    {
      match GetUserRole(authService.users, username)
      case Success(response) => RoleReply(Ok, Some(response))
      case Failure(_) => RoleReply(NotFound, None)
    }
  }

  // ---------------------------------------------------------------------
  // How `verifyOtp` builds the registration request

  /** The call as written, `new RegistrationRequest(email, password, username)`,
      does not compile against the class as declared. Were it to bind its three
      arguments to the first three declared fields (username, password, email),
      a successful registration would store the email as the username and the
      username as the email. */
  lemma PositionalBindingSwapsIdentity(users: seq<User>, o: OTPVerificationRequest, crypto: Crypto, saveFails: bool)
    requires o.email != o.username
    requires Auth.Register(users, PositionalRequest(o.email, o.password, o.username), crypto, saveFails).Success?
    ensures var stored := Auth.Register(users, PositionalRequest(o.email, o.password, o.username), crypto, saveFails).value;
            stored[|users|].username == o.email && stored[|users|].username != o.username &&
            stored[|users|].email == o.username
  {
  }

  /** Built field by field, the new account carries the submitted username and
      email, the encoded submitted password, and no role. */
  lemma RequestFromOtpKeepsIdentity(users: seq<User>, o: OTPVerificationRequest, crypto: Crypto, saveFails: bool)
    requires Auth.Register(users, RequestFromOtp(o), crypto, saveFails).Success?
    ensures var stored := Auth.Register(users, RequestFromOtp(o), crypto, saveFails).value;
            |stored| == |users| + 1 && stored[..|users|] == users &&
            stored[|users|] == User(o.username, crypto.encode(o.password), o.email, None)
  {
  }

  // ---------------------------------------------------------------------
  // Flows through several endpoints

  /** Register, verify with the mailed code, log in with the right and with a
      wrong password, and look up the role, starting from an empty repository.
      The account is created, the right password yields a token, the wrong one
      401, and the role is absent because nothing on this path sets it. */
  method RegistrationScenario(crypto: Crypto, r: Draw, now: int)
    returns (registered: Status, confirmed: Status, loggedIn: LoginReply, rejected: LoginReply, role: RoleReply)
    requires crypto.matches("pw123456", crypto.encode("pw123456"))
    requires !crypto.matches("wrong", crypto.encode("pw123456"))
    ensures registered == Ok && confirmed == Ok
    ensures loggedIn == LoginReply(Ok, Some(crypto.generateToken("bob")))
    ensures rejected == LoginReply(Unauthorized, None) && rejected.status.Code() == 401
    ensures role == RoleReply(Ok, Some(RoleResponse("bob", None)))
  {
    var auth := new AuthService(crypto, []);
    var otps := new OTPService();
    var controller := new AuthController(auth, otps);
    registered := controller.Register(RegistrationRequest("bob", "pw123456", "bob@x.com", None), r, now, false);
    var code := FormatCode(r);
    confirmed := controller.VerifyOtp(OTPVerificationRequest("bob@x.com", "bob", "pw123456", code), now, false);
    assert auth.users == [User("bob", crypto.encode("pw123456"), "bob@x.com", None)];
    loggedIn := controller.Login(LoginRequest("bob", "pw123456"));
    rejected := controller.Login(LoginRequest("bob", "wrong"));
    role := controller.GetRole("bob");
  }

  /** A second registration with a taken username but a new email is not
      refused by `register`: a code is issued and mailed. The duplicate is only
      caught by `verifyOtp`, which answers 409 after the code has been used up. */
  method DuplicateUsernameScenario(crypto: Crypto, r1: Draw, r2: Draw, now: int)
    returns (second: Status, secondConfirmed: Status, retried: Status)
    ensures second == Ok
    ensures secondConfirmed == Conflict && secondConfirmed.Code() == 409
    ensures retried == BadRequest && retried.Code() == 400
  {
    var auth := new AuthService(crypto, []);
    var otps := new OTPService();
    var controller := new AuthController(auth, otps);
    var first := controller.Register(RegistrationRequest("alice", "pw123456", "a@x.com", None), r1, now, false);
    var firstConfirmed := controller.VerifyOtp(OTPVerificationRequest("a@x.com", "alice", "pw123456", FormatCode(r1)), now, false);
    assert firstConfirmed == Ok;
    second := controller.Register(RegistrationRequest("alice", "pw654321", "b@x.com", None), r2, now, false);
    var request := OTPVerificationRequest("b@x.com", "alice", "pw654321", FormatCode(r2));
    secondConfirmed := controller.VerifyOtp(request, now, false);
    retried := controller.VerifyOtp(request, now, false);
  }
}
