/**
 The session token. Only its payload and timestamps are modelled: the
 encoding and the HMAC signature are not.
 */
module Jwt {

  /** What the server puts under the payload's `user` key: the row's id,
      username and role column. */
  datatype Claims = Claims(id: nat, username: string, role: string)

  /** `iat` and `exp` are in whole seconds since the epoch. */
  datatype Token = Token(user: Claims, iat: int, exp: int)

  /** `expiresIn: '1h'`. */
  const ExpiresInSeconds: int := 3600

  /** Signs `claims` at wall-clock time `nowMillis` (milliseconds since the
      epoch): the issue time is the clock truncated to whole seconds and the
      token expires one hour later. */
  function Sign(claims: Claims, nowMillis: int): (t: Token)
    ensures t.user == claims
    ensures t.iat * 1000 <= nowMillis < t.iat * 1000 + 1000
    ensures t.exp - t.iat == 3600
  {
    var iat := nowMillis / 1000;
    Token(claims, iat, iat + ExpiresInSeconds)
  }
}
