/** Step 2 of the agent's start-up: obtaining the bearer token, either from
    the local credentials file or by registering with the server. */
module Registration {
  import opened Optional
  import opened Config

  /** The outcome of `POST /api/monitoring/register`: the status code and
      the `token` key of the JSON body, or a connection failure. */
  datatype RegisterReply = RegisterReply(status: int, token: Option<string>) | RegisterUnreachable

  /** What start-up does about the token. `Ready` carries the token used from
      now on, the local config as it is afterwards and whether a
      registration took place (and so the file was written); every other
      outcome ends the process with exit status 1. */
  datatype TokenOutcome =
    | Ready(token: string, local: LocalConfig, registered: bool)
    | AlreadyRegistered
    | RegistrationFailed(status: int)
    | MissingToken
    | ServerUnreachable

  /** The local file holds a token that counts as present: the key exists and
      the string is not empty (Python truthiness). */
  predicate HasStoredToken(local: LocalConfig) {
    "token" in local && local["token"] != ""
  }

  /** Registers only when no stored token is present. On status 200 the token
      from the reply is stored together with the server URL; 409 means the
      hostname is already registered; any other status or a failed
      connection is an error. A 200 reply without a token key fails. */
  function ObtainToken(local: LocalConfig, serverUrl: string, reply: RegisterReply): (r: TokenOutcome)
    ensures HasStoredToken(local) ==> r == Ready(local["token"], local, false)
    ensures r.Ready? <==> HasStoredToken(local) || (reply.RegisterReply? && reply.status == 200 && reply.token.Some?)
    ensures r.Ready? && r.registered ==>
      && !HasStoredToken(local) && r.token == reply.token.value
      && r.local == StoreCredentials(local, r.token, serverUrl)
    ensures r.AlreadyRegistered? <==> !HasStoredToken(local) && reply.RegisterReply? && reply.status == 409
    ensures r.ServerUnreachable? <==> !HasStoredToken(local) && reply.RegisterUnreachable?
    ensures r.MissingToken? <==> !HasStoredToken(local) && reply.RegisterReply? && reply.status == 200 && reply.token.None?
    ensures !HasStoredToken(local) && r.Ready? ==> r.registered
    ensures r.RegistrationFailed? <==>
      !HasStoredToken(local) && reply.RegisterReply? && reply.status != 200 && reply.status != 409
    ensures r.RegistrationFailed? ==> r.status == reply.status
  {
    if HasStoredToken(local) then Ready(local["token"], local, false)
    else match reply
      case RegisterUnreachable => ServerUnreachable
      case RegisterReply(status, token) =>
        if status == 200 then
          (match token
           case Some(t) => Ready(t, StoreCredentials(local, t, serverUrl), true)
           case None => MissingToken)
        else if status == 409 then AlreadyRegistered
        else RegistrationFailed(status)
  }

  /** The credentials a registration stores are found on the next start: a
      non-empty token is used again without registering, whatever the server
      would reply. */
  lemma RegisteredTokenIsReused(local: LocalConfig, serverUrl: string, reply: RegisterReply, next: RegisterReply)
    requires ObtainToken(local, serverUrl, reply).Ready?
    requires ObtainToken(local, serverUrl, reply).token != ""
    ensures var first := ObtainToken(local, serverUrl, reply);
      ObtainToken(first.local, serverUrl, next) == Ready(first.token, first.local, false)
  {
  }

  /** An empty token returned by the server is stored but, being falsy, does
      not count on the next start, which registers again. */
  lemma EmptyTokenIsNotReused(local: LocalConfig, serverUrl: string)
    requires !HasStoredToken(local)
    ensures var first := ObtainToken(local, serverUrl, RegisterReply(200, Some("")));
      first.Ready? && first.registered && first.local["token"] == "" && !HasStoredToken(first.local)
  {
  }
}
