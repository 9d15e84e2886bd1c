/** The request records the controller receives (Dto/RegistrationRequest.java,
    Dto/OTPVerificationRequest.java, and the login request, whose file is not
    part of this model). */
module Dto {
  import opened Wrappers

  /** Fields in their declared order: username, password, email, role. The role
      is a nullable string ("USER or ADMIN"), hence an `Option`. */
  datatype RegistrationRequest = RegistrationRequest(
    username: string,
    password: string,
    email: string,
    role: Option<string>)

  datatype OTPVerificationRequest = OTPVerificationRequest(
    email: string,
    username: string,
    password: string,
    otp: string)
  {
    /** The size constraints of the request's validation annotations: every field
        non-empty, a username of 3 to 30 characters, a password of at least 8 and
        an OTP of exactly 6. The `@Email` format check is not modelled. */
    predicate Admissible()
      ensures Admissible() ==> |otp| == 6 && 3 <= |username| <= 30 && |password| >= 8
      ensures Admissible() ==> email != []
    {
      |email| > 0 && 3 <= |username| <= 30 && |password| >= 8 && |otp| == 6
    }
  }

  datatype LoginRequest = LoginRequest(username: string, password: string)

  /** A three-argument call `new RegistrationRequest(a, b, c)` matches no
      constructor of the class as declared (Lombok's `@Data` generates only a
      no-argument one, and an all-arguments constructor would take four). This
      is what a hypothetical three-argument constructor over the first three
      declared fields (username, password, email) would build. */
  function PositionalRequest(a: string, b: string, c: string): (req: RegistrationRequest)
    ensures req.username == a && req.password == b && req.email == c
    ensures req.role == None
  {
    RegistrationRequest(a, b, c, None)
  }

  /** The intended construction: each field of the registration request taken
      from the field of the same name in the verification request, with no
      role, since the verification request has none. */
  function RequestFromOtp(o: OTPVerificationRequest): (req: RegistrationRequest)
    ensures req.username == o.username && req.email == o.email
    ensures req.password == o.password
    ensures req.role == None
  {
    RegistrationRequest(o.username, o.password, o.email, None)
  }
}
