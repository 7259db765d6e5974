/** Bearer tokens. JWT signing, verification and expiry are not modelled:
    a service's secret key and clock are folded into the `Encoder` and
    `Decoder` functions it is given, and an expired or forged token is one
    its decoder maps to `None`. */
module Tokens {
  import opened Results

  type Token = string

  /** The claims the services read from a token: `sub` (the username) and `role`. */
  datatype Claims = Claims(sub: string, role: string)

  type Encoder = Claims -> Token
  type Decoder = Token -> Option<Claims>

  /** A decoder accepts what the encoder issued and reads back the same claims
      (the token has not expired and both sides share the secret). */
  ghost predicate RoundTrips(encode: Encoder, decode: Decoder)
  {
    forall c :: decode(encode(c)) == Some(c)
  }

  /** The `get_current_user` dependency: the decoded claims, or 401. */
  function CurrentUser(decode: Decoder, token: Token): (r: Result<Claims>)
    ensures r.Ok? <==> decode(token).Some?
    ensures r.Ok? ==> r.value == decode(token).value
    ensures r.Err? ==> r.error.code == Unauthorized
  {
    match decode(token)
    case Some(claims) => Ok(claims)
    case None => Err(HttpError(Unauthorized, "Invalid token"))
  }
}
