/** The decisions of the agent's entry point, in order: normalise the server
    URL, obtain a token, pull the monitoring config, choose the interval and
    run the report loop. Hardware discovery, the tracker priming and the
    snapshots sent by the loop do not influence these decisions and are
    modelled in their own modules. */
module Agent {
  import opened Optional
  import opened Config
  import opened Url
  import opened Registration
  import opened Startup
  import opened ReportLoop

  /** How a run of the agent ends. */
  datatype AgentOutcome =
    | RegistrationEnded(outcome: TokenOutcome)
    | ConfigTokenRejected(retries: nat)
    | StoppedDuringStartup(retries: nat)
    | StillFetching(retries: nat)
    | Reported(token: string, local: LocalConfig, config: MonitorConfig, retries: nat, interval: int, loop: LoopResult)

  /** A run of the agent on the given arguments, local config and server
      replies. With a token in hand, the config fetch ends at the first pass
      that is not a retry, and that pass decides the outcome: the config
      (then the report loop runs), a rejected token, or the shutdown flag;
      a trace of retries only is still fetching. */
  method RunAgent(serverArg: string, intervalArg: Option<int>, local: LocalConfig,
                  registerReply: RegisterReply, attempts: seq<Attempt>, rounds: seq<Round>)
    returns (r: AgentOutcome)
    ensures var token := ObtainToken(local, TrimTrailingSlashes(serverArg), registerReply);
      r.RegistrationEnded? <==> !token.Ready?
    ensures r.Reported? ==>
      var token := ObtainToken(local, TrimTrailingSlashes(serverArg), registerReply);
      token.Ready? && r.token == token.token && r.local == token.local
    ensures r.Reported? && !HasStoredToken(local) ==>
      && r.local["server"] == TrimTrailingSlashes(serverArg)
      && (r.local["server"] == [] || r.local["server"][|r.local["server"]| - 1] != '/')
    ensures r.Reported? ==>
      && r.retries < |attempts| && attempts[r.retries].running && IsOk(attempts[r.retries].reply)
      && r.config == attempts[r.retries].reply.config
      && forall j :: 0 <= j < r.retries ==> Retries(attempts[j])
    ensures var token := ObtainToken(local, TrimTrailingSlashes(serverArg), registerReply);
      forall k :: 0 <= k < |attempts| && attempts[k].running && IsOk(attempts[k].reply) &&
                  (forall j :: 0 <= j < k ==> Retries(attempts[j])) && token.Ready? ==>
        r.Reported? && r.retries == k
    ensures r.ConfigTokenRejected? ==>
      && ObtainToken(local, TrimTrailingSlashes(serverArg), registerReply).Ready?
      && r.retries < |attempts| && attempts[r.retries].running && IsUnauthorized(attempts[r.retries].reply)
      && forall j :: 0 <= j < r.retries ==> Retries(attempts[j])
    ensures r.StoppedDuringStartup? ==>
      && ObtainToken(local, TrimTrailingSlashes(serverArg), registerReply).Ready?
      && r.retries < |attempts| && !attempts[r.retries].running
      && forall j :: 0 <= j < r.retries ==> Retries(attempts[j])
    ensures r.StillFetching? ==>
      && ObtainToken(local, TrimTrailingSlashes(serverArg), registerReply).Ready?
      && r.retries == |attempts| && forall j :: 0 <= j < |attempts| ==> Retries(attempts[j])
    ensures r.Reported? ==> r.interval == SelectInterval(intervalArg, r.config)
    ensures r.Reported? ==> r.loop == RunFrom(AgentState(UnknownVersion, r.config, r.interval), intervalArg, rounds, 0, [])
    ensures r.Reported? && intervalArg.Some? ==> r.loop.state.interval == r.interval
    ensures r.Reported? && intervalArg.None? ==> r.loop.state.interval == ConfiguredInterval(r.loop.state.config)
  {
    var serverUrl := TrimTrailingSlashes(serverArg);
    var token := ObtainToken(local, serverUrl, registerReply);
    if !token.Ready? {
      return RegistrationEnded(token);
    }
    var fetched := FetchInitialConfig(attempts);
    match fetched {
      case TokenRejected(retries) =>
        r := ConfigTokenRejected(retries);
      case Cancelled(retries) =>
        r := StoppedDuringStartup(retries);
      case StillWaiting(retries) =>
        r := StillFetching(retries);
      case Fetched(config, retries) =>
        var interval := SelectInterval(intervalArg, config);
        var loop := RunReportLoop(config, interval, intervalArg, rounds);
        var start := AgentState(UnknownVersion, config, interval);
        if intervalArg.Some? {
          PinnedIntervalNeverChanges(start, intervalArg, rounds, 0, []);
        } else {
          IntervalFollowsConfig(start, rounds, 0, []);
        }
        r := Reported(token.token, token.local, config, retries, interval, loop);
    }
  }
}
