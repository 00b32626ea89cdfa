/** `SimpleBearerAuthProvider`: the server accepts exactly one bearer token,
    the one it was configured with, and grants it every scope. */
module Auth {
  import opened Wrappers

  /** `mcp.server.auth.provider.AccessToken`; `expires_at` is a Unix time. */
  datatype AccessToken = AccessToken(token: string, clientId: string, scopes: seq<string>, expiresAt: Option<int>)

  /** The provider keeps the configured token; the RSA key pair its base
      class is built with plays no part in the check below. */
  datatype SimpleBearerAuthProvider = SimpleBearerAuthProvider(token: string)

  const ClientId: string := "puch-client"
  const AllScopes: seq<string> := ["*"]

  /** `load_access_token(token)`: a token equal to the configured one gets an
      access token for client "puch-client" with scope "*" and no expiry;
      every other token is refused. */
  function LoadAccessToken(p: SimpleBearerAuthProvider, token: string): (r: Option<AccessToken>)
    ensures r.Some? <==> token == p.token
    ensures r.Some? ==> r.value.token == p.token && r.value.clientId == ClientId &&
                        r.value.scopes == AllScopes && r.value.expiresAt.None?
  {
    if token == p.token then Some(AccessToken(token, ClientId, AllScopes, None)) else None
  }

  /** Any two tokens the provider accepts are the same string. */
  lemma OnlyOneToken(p: SimpleBearerAuthProvider, a: string, b: string)
    requires LoadAccessToken(p, a).Some? && LoadAccessToken(p, b).Some?
    ensures a == b && LoadAccessToken(p, a) == LoadAccessToken(p, b)
  {
  }

  /** The provider configured with a token accepts that token. */
  lemma OwnTokenAccepted(token: string)
    ensures LoadAccessToken(SimpleBearerAuthProvider(token), token) ==
            Some(AccessToken(token, ClientId, AllScopes, None))
  {
  }
}
