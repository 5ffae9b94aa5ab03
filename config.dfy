/** The server-controlled monitoring configuration and the agent's local
    credentials file, as plain values. */
module Config {
  import opened Optional

  /** Report interval, in seconds, used when the server config has none. */
  const DefaultReportInterval: int := 5

  /** The JSON object served at `/api/monitoring/config`. The four keys the
      agent reads are explicit; `otherKeys` stands for every other key, so
      that two configs are equal exactly when the JSON objects are. */
  datatype MonitorConfig = MonitorConfig(
    reportIntervalSec: Option<int>,
    gpuIndices: Option<seq<int>>,
    diskMounts: Option<seq<string>>,
    nicNames: Option<seq<string>>,
    otherKeys: map<string, string>)

  /** `config.get("reportIntervalSec", DEFAULT_REPORT_INTERVAL)`. */
  function ConfiguredInterval(config: MonitorConfig): int {
    config.reportIntervalSec.GetOr(DefaultReportInterval)
  }

  /** A selection filter: `None` keeps everything, a list keeps its members. */
  predicate Allowed<T(==)>(filter: Option<seq<T>>, x: T) {
    filter.None? || x in filter.value
  }

  /** The local credentials file, a JSON object whose values are abstracted
      to strings. */
  type LocalConfig = map<string, string>

  /** The in-memory update made after a successful registration: the token
      and the server URL are set, every other key is kept. */
  function StoreCredentials(local: LocalConfig, token: string, serverUrl: string): (r: LocalConfig)
    ensures r.Keys == local.Keys + {"token", "server"}
    ensures r["token"] == token && r["server"] == serverUrl
    ensures forall k :: k in local && k != "token" && k != "server" ==> r[k] == local[k]
  {
    local["token" := token]["server" := serverUrl]
  }
}
