/** Step 4 of the agent: the report loop. Each round posts a snapshot, reads
    the `configVersion` of the reply, and refetches the config when the
    version changed since the last report. The shutdown flag, the report
    replies and the refresh replies are given as a trace, one entry per
    round; collecting the snapshot is left out, and of the pause of
    `interval` seconds that ends each round only its one decision is kept:
    `time.sleep` refuses a negative length with an uncaught `ValueError`,
    which ends the process. */
module ReportLoop {
  import opened Optional
  import opened Config
  import opened Startup

  /** The outcome of `POST /api/monitoring/report`: the status code and, for
      status 200, the `configVersion` key of the JSON body; or a connection
      failure. */
  datatype ReportReply = ReportReply(status: int, configVersion: Option<int>) | ReportUnreachable

  predicate IsReportOk(reply: ReportReply) {
    reply.ReportReply? && reply.status == 200
  }

  /** `data.get("configVersion", 0)` of an accepted report. */
  function ReportedVersion(reply: ReportReply): int
    requires IsReportOk(reply)
  {
    reply.configVersion.GetOr(0)
  }

  /** One round of the loop: the shutdown flag as the loop condition sees
      it, the report reply, and the reply a config refresh would get if the
      round asks for one. */
  datatype Round = Round(running: bool, report: ReportReply, refresh: ConfigReply)

  /** The variables the loop carries from round to round. */
  datatype AgentState = AgentState(knownVersion: int, config: MonitorConfig, interval: int)

  /** `known_config_version` before the first report: no version known. */
  const UnknownVersion: int := -1

  /** The result of the version check after a report: the version known
      afterwards and whether the config must be refetched. The first accepted
      report, while no version is known, only records its version; a later
      one asks for a refresh exactly when its version differs. Any other
      reply changes nothing. */
  function TrackVersion(known: int, reply: ReportReply): (r: (int, bool))
    ensures IsReportOk(reply) ==> r.0 == ReportedVersion(reply)
    ensures !IsReportOk(reply) ==> r.0 == known
    ensures r.1 <==> IsReportOk(reply) && known >= 0 && ReportedVersion(reply) != known
  {
    if IsReportOk(reply) then
      var serverVersion := ReportedVersion(reply);
      if known < 0 then (serverVersion, false)
      else if serverVersion != known then (serverVersion, true)
      else (known, false)
    else (known, false)
  }

  /** Applies the reply of a config refresh. A config that differs from the
      current one replaces it and, unless `--interval` was given, the
      interval follows its `reportIntervalSec`. Any other reply (another
      status, including 401, or a connection failure) is ignored. */
  function ApplyRefresh(s: AgentState, intervalArg: Option<int>, reply: ConfigReply): (r: AgentState)
    ensures r.knownVersion == s.knownVersion
    ensures r.config == (if IsOk(reply) then reply.config else s.config)
    ensures intervalArg.Some? ==> r.interval == s.interval
    ensures intervalArg.None? && IsOk(reply) && reply.config != s.config ==> r.interval == ConfiguredInterval(reply.config)
    ensures !IsOk(reply) || reply.config == s.config ==> r == s
  {
    if IsOk(reply) && reply.config != s.config then
      var newInterval := ConfiguredInterval(reply.config);
      if intervalArg.None? && newInterval != s.interval then
        s.(config := reply.config, interval := newInterval)
      else
        s.(config := reply.config)
    else s
  }

  /** Applying the same refresh reply twice is the same as applying it once. */
  lemma ApplyRefreshIdempotent(s: AgentState, intervalArg: Option<int>, reply: ConfigReply)
    ensures ApplyRefresh(ApplyRefresh(s, intervalArg, reply), intervalArg, reply) == ApplyRefresh(s, intervalArg, reply)
  {
  }

  /** The outcome of one round: the loop goes on with a new state, noting
      whether a refresh was attempted, or the token was rejected. */
  datatype RoundResult = Continue(state: AgentState, refreshed: bool) | Revoked

  /** One round of the loop, on a running agent. A report rejected with 401
      ends the process; otherwise the version is tracked and, when it asks
      for one, a refresh is applied. */
  function RoundStep(s: AgentState, intervalArg: Option<int>, round: Round): (r: RoundResult)
    ensures r.Revoked? <==> round.report.ReportReply? && round.report.status == 401
    ensures r.Continue? ==> r.state.knownVersion == TrackVersion(s.knownVersion, round.report).0
    ensures r.Continue? ==> (r.refreshed <==> TrackVersion(s.knownVersion, round.report).1)
    ensures r.Continue? && !r.refreshed ==> r.state.config == s.config && r.state.interval == s.interval
    ensures r.Continue? && r.refreshed ==>
      r.state == ApplyRefresh(s.(knownVersion := TrackVersion(s.knownVersion, round.report).0), intervalArg, round.refresh)
  {
    if round.report.ReportReply? && round.report.status == 401 then Revoked
    else
      var (known, needRefresh) := TrackVersion(s.knownVersion, round.report);
      var s1 := s.(knownVersion := known);
      if needRefresh then Continue(ApplyRefresh(s1, intervalArg, round.refresh), true)
      else Continue(s1, false)
  }

  /** Why the loop ended: the shutdown flag, a rejected token (exit status
      1), a negative interval refused by the pause after a round (an uncaught
      exception), or the end of the trace. */
  datatype LoopExit = Stopped | TokenRevoked | PauseRejected | TraceEnded

  /** The state at the end of the loop, why it ended, the number of rounds
      completed (their reports sent, a round ended by `PauseRejected`
      included) and the rounds in which a refresh was attempted. */
  datatype LoopResult = LoopResult(state: AgentState, exit: LoopExit, rounds: nat, refreshes: seq<nat>)

  /** The loop from round `i` on, given the state and the refreshes so far. */
  function RunFrom(s: AgentState, intervalArg: Option<int>, rounds: seq<Round>, i: nat, refreshes: seq<nat>)
    : (r: LoopResult)
    requires i <= |rounds|
    ensures i <= r.rounds <= |rounds|
    ensures r.exit == TraceEnded ==> r.rounds == |rounds|
    ensures r.exit == Stopped ==> r.rounds < |rounds| && !rounds[r.rounds].running
    ensures r.exit == TokenRevoked ==>
      r.rounds < |rounds| && rounds[r.rounds].running && RoundStep(r.state, intervalArg, rounds[r.rounds]).Revoked?
    ensures r.exit == PauseRejected <==> i < r.rounds && r.state.interval < 0
    ensures forall k :: i <= k < r.rounds ==>
      rounds[k].running && !(rounds[k].report.ReportReply? && rounds[k].report.status == 401)
    decreases |rounds| - i
  {
    if i == |rounds| then LoopResult(s, TraceEnded, i, refreshes)
    else if !rounds[i].running then LoopResult(s, Stopped, i, refreshes)
    else match RoundStep(s, intervalArg, rounds[i])
      case Revoked => LoopResult(s, TokenRevoked, i, refreshes)
      case Continue(s', refreshed) =>
        var refreshes' := if refreshed then refreshes + [i] else refreshes;
        if s'.interval < 0 then LoopResult(s', PauseRejected, i + 1, refreshes')
        else RunFrom(s', intervalArg, rounds, i + 1, refreshes')
  }

  /** The report loop, from the config and interval chosen at start-up with
      no config version known yet. */
  method RunReportLoop(config: MonitorConfig, interval: int, intervalArg: Option<int>, rounds: seq<Round>)
    returns (r: LoopResult)
    ensures r == RunFrom(AgentState(UnknownVersion, config, interval), intervalArg, rounds, 0, [])
  {
    var knownConfigVersion := UnknownVersion;
    var monitorConfig := config;
    var currentInterval := interval;
    var refreshes: seq<nat> := [];
    var i := 0;
    while i < |rounds| && rounds[i].running
      invariant i <= |rounds|
      invariant RunFrom(AgentState(UnknownVersion, config, interval), intervalArg, rounds, 0, []) ==
                RunFrom(AgentState(knownConfigVersion, monitorConfig, currentInterval), intervalArg, rounds, i, refreshes)
      decreases |rounds| - i
    {
      var round := rounds[i];
      var needConfigRefresh := false;
      match round.report {
        case ReportReply(status, configVersion) =>
          if status == 200 {
            var serverVersion := configVersion.GetOr(0);
            if knownConfigVersion < 0 {
              knownConfigVersion := serverVersion;
            } else if serverVersion != knownConfigVersion {
              knownConfigVersion := serverVersion;
              needConfigRefresh := true;
            }
          } else if status == 401 {
            return LoopResult(AgentState(knownConfigVersion, monitorConfig, currentInterval), TokenRevoked, i, refreshes);
          }
        case ReportUnreachable =>
      }
      if needConfigRefresh {
        refreshes := refreshes + [i];
        match round.refresh {
          case ConfigReply(status, newConfig) =>
            if status == 200 && newConfig != monitorConfig {
              monitorConfig := newConfig;
              var newInterval := ConfiguredInterval(monitorConfig);
              if intervalArg.None? && newInterval != currentInterval {
                currentInterval := newInterval;
              }
            }
          case ConfigUnreachable =>
        }
      }
      if currentInterval < 0 {
        return LoopResult(AgentState(knownConfigVersion, monitorConfig, currentInterval), PauseRejected, i + 1, refreshes);
      }
      i := i + 1;
    }
    r := LoopResult(AgentState(knownConfigVersion, monitorConfig, currentInterval),
                    if i < |rounds| then Stopped else TraceEnded, i, refreshes);
  }

  /** With `--interval` given, no round changes the interval. */
  lemma {:induction false} PinnedIntervalNeverChanges(s: AgentState, intervalArg: Option<int>, rounds: seq<Round>,
                                                      i: nat, refreshes: seq<nat>)
    requires i <= |rounds| && intervalArg.Some?
    ensures RunFrom(s, intervalArg, rounds, i, refreshes).state.interval == s.interval
    decreases |rounds| - i
  {
    if i < |rounds| && rounds[i].running {
      var step := RoundStep(s, intervalArg, rounds[i]);
      if step.Continue? {
        PinnedIntervalNeverChanges(step.state, intervalArg, rounds, i + 1,
                                   if step.refreshed then refreshes + [i] else refreshes);
      }
    }
  }

  /** Without `--interval`, an interval that matches the config's
      `reportIntervalSec` keeps matching it whatever the refreshes bring. */
  lemma {:induction false} IntervalFollowsConfig(s: AgentState, rounds: seq<Round>, i: nat, refreshes: seq<nat>)
    requires i <= |rounds| && s.interval == ConfiguredInterval(s.config)
    ensures var r := RunFrom(s, None, rounds, i, refreshes);
      r.state.interval == ConfiguredInterval(r.state.config)
    decreases |rounds| - i
  {
    if i < |rounds| && rounds[i].running {
      var step := RoundStep(s, None, rounds[i]);
      if step.Continue? {
        IntervalFollowsConfig(step.state, rounds, i + 1, if step.refreshed then refreshes + [i] else refreshes);
      }
    }
  }

  /** The config at the end is the one the loop started with or one served by
      a successful refresh in a round that asked for it. */
  lemma {:induction false} ConfigComesFromServer(s: AgentState, intervalArg: Option<int>, rounds: seq<Round>,
                                                 i: nat, refreshes: seq<nat>)
    requires i <= |rounds|
    ensures var r := RunFrom(s, intervalArg, rounds, i, refreshes);
      r.state.config == s.config ||
      exists k :: i <= k < r.rounds && k in r.refreshes && IsOk(rounds[k].refresh) && rounds[k].refresh.config == r.state.config
    decreases |rounds| - i
  {
    if i < |rounds| && rounds[i].running {
      var step := RoundStep(s, intervalArg, rounds[i]);
      if step.Continue? {
        var refreshes' := if step.refreshed then refreshes + [i] else refreshes;
        ConfigComesFromServer(step.state, intervalArg, rounds, i + 1, refreshes');
        RefreshesOnlyGrow(step.state, intervalArg, rounds, i + 1, refreshes');
        var r := RunFrom(s, intervalArg, rounds, i, refreshes);
        if step.state.config != s.config && r.state.config == step.state.config {
          assert r.refreshes[|refreshes|] == refreshes'[|refreshes|] == i;
          assert i <= i < r.rounds && i in r.refreshes && IsOk(rounds[i].refresh);
        }
      }
    }
  }

  /** The refreshes noted before round `i` are kept, and every refresh added
      is a completed round with an accepted report. */
  lemma {:induction false} RefreshesOnlyGrow(s: AgentState, intervalArg: Option<int>, rounds: seq<Round>,
                                             i: nat, refreshes: seq<nat>)
    requires i <= |rounds|
    ensures var r := RunFrom(s, intervalArg, rounds, i, refreshes);
      |refreshes| <= |r.refreshes| && r.refreshes[..|refreshes|] == refreshes
    ensures var r := RunFrom(s, intervalArg, rounds, i, refreshes);
      forall n :: |refreshes| <= n < |r.refreshes| ==>
        i <= r.refreshes[n] < r.rounds && IsReportOk(rounds[r.refreshes[n]].report)
    decreases |rounds| - i
  {
    if i < |rounds| && rounds[i].running {
      var step := RoundStep(s, intervalArg, rounds[i]);
      if step.Continue? {
        var refreshes' := if step.refreshed then refreshes + [i] else refreshes;
        RefreshesOnlyGrow(step.state, intervalArg, rounds, i + 1, refreshes');
        var r := RunFrom(s, intervalArg, rounds, i, refreshes);
        assert r.refreshes[..|refreshes'|] == refreshes';
        assert r.refreshes[..|refreshes|] == refreshes'[..|refreshes|];
      }
    }
  }

  /** No report of the rounds after `k` and before `end` was accepted. */
  predicate NoAcceptedReportAfter(rounds: seq<Round>, k: nat, end: nat)
    requires end <= |rounds|
  {
    forall j :: k < j < end ==> !IsReportOk(rounds[j].report)
  }

  /** After the loop the known version is the one carried by the last
      accepted report, or the starting one when no report was accepted. */
  lemma {:induction false} KnownVersionIsLastReported(s: AgentState, intervalArg: Option<int>, rounds: seq<Round>,
                                                      i: nat, refreshes: seq<nat>)
    requires i <= |rounds|
    ensures var r := RunFrom(s, intervalArg, rounds, i, refreshes);
      (forall k :: i <= k < r.rounds ==> !IsReportOk(rounds[k].report)) ==> r.state.knownVersion == s.knownVersion
    ensures var r := RunFrom(s, intervalArg, rounds, i, refreshes);
      forall k :: i <= k < r.rounds && IsReportOk(rounds[k].report) && NoAcceptedReportAfter(rounds, k, r.rounds) ==>
        r.state.knownVersion == ReportedVersion(rounds[k].report)
    decreases |rounds| - i
  {
    if i < |rounds| && rounds[i].running {
      var step := RoundStep(s, intervalArg, rounds[i]);
      if step.Continue? {
        KnownVersionIsLastReported(step.state, intervalArg, rounds, i + 1,
                                   if step.refreshed then refreshes + [i] else refreshes);
      }
    }
  }

  /** A round whose refresh fails has already recorded the new version, so the
      next round reporting that same version does not ask again: the old
      config stays until the version changes once more. */
  lemma FailedRefreshIsNotRetried(s: AgentState, intervalArg: Option<int>, first: Round, second: Round)
    requires RoundStep(s, intervalArg, first).Continue? && RoundStep(s, intervalArg, first).refreshed
    requires !IsOk(first.refresh)
    requires IsReportOk(second.report) && ReportedVersion(second.report) == ReportedVersion(first.report)
    ensures var s1 := RoundStep(s, intervalArg, first).state;
      s1.config == s.config && RoundStep(s1, intervalArg, second) == Continue(s1, false)
  {
  }

  /** Three accepted reports with versions v, v and w != v, starting with no
      known version and a valid interval: the first only records v, the
      second changes nothing and only the third asks for a refresh; the loop
      runs to the end of the trace unless that refresh brings a negative
      interval. */
  lemma OneRefreshPerVersionChange(config: MonitorConfig, interval: int, intervalArg: Option<int>,
                                   v: int, w: int, refresh: ConfigReply)
    requires v >= 0 && w != v && interval >= 0
    ensures var rounds := [Round(true, ReportReply(200, Some(v)), refresh),
                           Round(true, ReportReply(200, Some(v)), refresh),
                           Round(true, ReportReply(200, Some(w)), refresh)];
      var r := RunFrom(AgentState(UnknownVersion, config, interval), intervalArg, rounds, 0, []);
      && r.refreshes == [2] && r.state.knownVersion == w && r.rounds == 3
      && r.exit == (if r.state.interval < 0 then PauseRejected else TraceEnded)
  {
    var rounds := [Round(true, ReportReply(200, Some(v)), refresh),
                   Round(true, ReportReply(200, Some(v)), refresh),
                   Round(true, ReportReply(200, Some(w)), refresh)];
    var s0 := AgentState(UnknownVersion, config, interval);
    var s1 := s0.(knownVersion := v);
    assert RoundStep(s0, intervalArg, rounds[0]) == Continue(s1, false);
    assert RoundStep(s1, intervalArg, rounds[1]) == Continue(s1, false);
    var s3 := ApplyRefresh(s1.(knownVersion := w), intervalArg, refresh);
    assert RoundStep(s1, intervalArg, rounds[2]) == Continue(s3, true);
    assert RunFrom(s0, intervalArg, rounds, 0, []) == RunFrom(s1, intervalArg, rounds, 1, []);
    assert RunFrom(s1, intervalArg, rounds, 1, []) == RunFrom(s1, intervalArg, rounds, 2, []);
    if s3.interval >= 0 {
      assert RunFrom(s1, intervalArg, rounds, 2, []) == RunFrom(s3, intervalArg, rounds, 3, [] + [2]);
      assert RunFrom(s3, intervalArg, rounds, 3, [2]) == LoopResult(s3, TraceEnded, 3, [2]);
    } else {
      assert RunFrom(s1, intervalArg, rounds, 2, []) == LoopResult(s3, PauseRejected, 3, [] + [2]);
    }
  }
}
