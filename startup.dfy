/** Step 3 of the agent's start-up: pulling the monitoring config, retrying
    until the server answers, and choosing the report interval. The
    shutdown flag set by the signal handlers and the replies of
    `GET /api/monitoring/config` are given as a trace, one entry per pass of
    the retry loop; the five-second pause between passes is left out. */
module Startup {
  import opened Optional
  import opened Config

  /** The outcome of `GET /api/monitoring/config`: the status code and, for
      status 200, the config in the body; or a connection failure. */
  datatype ConfigReply = ConfigReply(status: int, config: MonitorConfig) | ConfigUnreachable

  predicate IsOk(reply: ConfigReply) {
    reply.ConfigReply? && reply.status == 200
  }

  predicate IsUnauthorized(reply: ConfigReply) {
    reply.ConfigReply? && reply.status == 401
  }

  /** One pass of the retry loop: the shutdown flag as the loop condition
      sees it, and the reply the request would get. */
  datatype Attempt = Attempt(running: bool, reply: ConfigReply)

  /** A pass that leads to another one: the agent is running and the reply is
      neither the config nor a rejected token. */
  predicate Retries(a: Attempt) {
    a.running && !IsOk(a.reply) && !IsUnauthorized(a.reply)
  }

  /** How the retry loop ends, with the number of failed passes before it
      (`retry_count`). `StillWaiting` is a trace that ran out while the loop
      was still retrying. */
  datatype FetchOutcome =
    | Fetched(config: MonitorConfig, retries: nat)
    | TokenRejected(retries: nat)
    | Cancelled(retries: nat)
    | StillWaiting(retries: nat)

  /** The retry loop. It ends at the first pass that is not a retry: with the
      config on status 200, with exit status 1 on 401, or with a normal
      return when the shutdown flag is seen; every earlier pass was a retry. */
  method FetchInitialConfig(attempts: seq<Attempt>) returns (r: FetchOutcome)
    ensures r.retries <= |attempts|
    ensures forall j :: 0 <= j < r.retries ==> Retries(attempts[j])
    ensures r.Fetched? <==> r.retries < |attempts| && attempts[r.retries].running && IsOk(attempts[r.retries].reply)
    ensures r.Fetched? ==> r.config == attempts[r.retries].reply.config
    ensures r.TokenRejected? <==>
      r.retries < |attempts| && attempts[r.retries].running && IsUnauthorized(attempts[r.retries].reply)
    ensures r.Cancelled? <==> r.retries < |attempts| && !attempts[r.retries].running
    ensures r.StillWaiting? <==> r.retries == |attempts|
  {
    var retryCount := 0;
    while retryCount < |attempts| && attempts[retryCount].running
      invariant retryCount <= |attempts|
      invariant forall j :: 0 <= j < retryCount ==> Retries(attempts[j])
      decreases |attempts| - retryCount
    {
      var reply := attempts[retryCount].reply;
      if reply.ConfigReply? && reply.status == 200 {
        return Fetched(reply.config, retryCount);
      } else if reply.ConfigReply? && reply.status == 401 {
        return TokenRejected(retryCount);
      }
      retryCount := retryCount + 1;
    }
    if retryCount < |attempts| {
      r := Cancelled(retryCount);
    } else {
      r := StillWaiting(retryCount);
    }
  }

  /** The report interval: `--interval` when given and non-zero (Python
      truthiness), otherwise the config's `reportIntervalSec`, otherwise the
      default. */
  function SelectInterval(intervalArg: Option<int>, config: MonitorConfig): (r: int)
    ensures intervalArg.Some? && intervalArg.value != 0 ==> r == intervalArg.value
    ensures intervalArg.None? || intervalArg.value == 0 ==> r == ConfiguredInterval(config)
    ensures r == 0 ==> config.reportIntervalSec == Some(0)
  {
    if intervalArg.Some? && intervalArg.value != 0 then intervalArg.value else ConfiguredInterval(config)
  }
}
