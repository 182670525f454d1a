/** The authentication shapes: the registration body with its password bounds, the
    login body, which has none, and the token answer. */
module AuthSchema {
  import opened Common
  import UserSchema

  const MinRegisterPassword := 8
  const MaxRegisterPassword := 64
  const BearerType := "bearer"

  datatype RegisterRequest = RegisterRequest(
    email: string,
    password: string,
    firstName: Option<string>,
    lastName: Option<string>)

  /** `min_length=8, max_length=64` on the password as sent, before any stripping. */
  function RegisterViolations(r: RegisterRequest): (v: seq<Violation>)
    ensures v == [] <==> MinRegisterPassword <= |r.password| <= MaxRegisterPassword
  {
    if |r.password| < MinRegisterPassword then [Violation("password", "string_too_short")]
    else if |r.password| > MaxRegisterPassword then [Violation("password", "string_too_long")]
    else []
  }

  /** The login body: any password string is accepted by validation. */
  datatype LoginRequest = LoginRequest(email: string, password: string)

  /** The claims of an access token; signing and expiry are not modelled. */
  datatype AccessToken = AccessToken(sub: string)

  datatype Token = Token(accessToken: AccessToken, tokenType: string)

  /** A token with the default type. */
  function BearerToken(t: AccessToken): (r: Token)
    ensures r.accessToken == t && r.tokenType == "bearer"
  {
    Token(t, BearerType)
  }

  /** The two password rules are different and neither implies the other in full: six
      and seven characters pass the create rule but not registration, sixty-five pass the
      create rule but not registration, and every registration password passes the create
      rule. */
  lemma PasswordRulesDiffer(email: string, p: string)
    ensures |p| == 6 || |p| == 7 || |p| == 65 ==>
      && RegisterViolations(RegisterRequest(email, p, None, None)) != []
      && UserSchema.UserCreateViolations(UserSchema.UserCreate(email, None, None, None, None, None, None, p)) == []
    ensures RegisterViolations(RegisterRequest(email, p, None, None)) == [] ==>
      UserSchema.UserCreateViolations(UserSchema.UserCreate(email, None, None, None, None, None, None, p)) == []
  {
  }
}
