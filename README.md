# lab_exporter in Dafny

A model of the core of `lab_exporter.py`, a monitoring agent for GPU lab
nodes. The agent discovers the node's hardware, registers with the Lab
Portal to obtain a bearer token, pulls a monitoring config and then reports
a snapshot every few seconds. The model covers the parts of that program
that decide something:

- the network rate tracker, `NetworkRateTracker`. It turns cumulative
  per-NIC byte counters into Mbps figures and writes them into the snapshot
  in place. It is modelled as a class whose `Update` method rewrites the
  snapshot's rows one by one in a loop, as the source does
  (`rate_tracker.dfy`, with properties in `rate_properties.dfy` and the
  start-up priming in `priming.dfy`);
- the selection filters of `collect_snapshot` and `discover_hardware`:
  which GPUs, disks and NICs are reported, and the IPv4 lookup
  (`collection.dfy`);
- the decisions of the entry point:
  - URL normalisation (`url.dfy`);
  - obtaining the token (`registration.dfy`);
  - the initial config fetch with its retry loop, and the choice of the
    report interval (`startup.dfy`);
  - version tracking and config refresh in the report loop
    (`report_loop.dfy`);
  - all of these in sequence (`agent.dfy`).

The hardware, the clock, the server replies and the shutdown flag set by
the signal handlers are parameters:

- `Update` takes the counter map and the current time.
- The retry loop and the report loop take a finite trace. Each entry of the
  trace holds one pass's shutdown flag and the replies the server would
  give on that pass.
- A trace that runs out is reported as such (`StillWaiting`, `TraceEnded`).

Rates are exact reals. Python's `round(x, 1)` is modelled as
round-half-to-even to one decimal (`Rounding.Round1`).

A fresh tracker's first update has no previous sample and writes zero
rates. The entry point therefore primes the tracker with one throwaway
update before the report loop (lines 513-516).
`Priming.PrimedRowsCarryDelta` shows that the first report then carries
the counter growth since the priming sample;
`Priming.UnprimedFirstReportIsZero` shows what an unprimed tracker would
report.

## Model

| member | source | states |
|---|---|---|
| Url.TrimTrailingSlashes | lab_exporter.py:415 | the result is a prefix of the argument that does not end in '/', and everything after it is '/' |
| Url.TrimTrailingSlashesUnique | lab_exporter.py:415 | those three properties determine the normalised URL uniquely |
| Url.TrimTrailingSlashesIdempotent | lab_exporter.py:415 | normalising twice is normalising once |
| Url.TrailingSlashesIgnored | lab_exporter.py:415 | any number of appended slashes gives the same server URL |
| Rounding.RoundHalfEven | lab_exporter.py:326-327 | the chosen integer is within one half of the argument |
| Rounding.Round1 | lab_exporter.py:326-327 | `round(x, 1)` is within 0.05 of x |
| Rounding.RoundHalfEvenMonotone | lab_exporter.py:326-327 | rounding to an integer preserves order |
| Rounding.Round1Monotone | lab_exporter.py:326-327 | rounding to a tenth preserves order |
| Rounding.Round1NonNegative | lab_exporter.py:326-327 | rounding keeps zero at zero and non-negative values non-negative |
| Rounding.Round1Idempotent | lab_exporter.py:337-338 | rounding an already rounded figure changes nothing |
| Config.StoreCredentials | lab_exporter.py:450-451 | after registration the local config holds the token and the server URL, and every other key is unchanged |
| Snapshots.Snapshot.constructor | lab_exporter.py:273-288 | a new snapshot holds the given NIC rows and zero totals |
| Collection.SelectedGpus | lab_exporter.py:177-185 | the GPU indices visited are exactly the indices below the device count that `gpuIndices` allows, in increasing order |
| Collection.UsableDisks | lab_exporter.py:231-247 | a partition is reported if and only if it is not a pseudo filesystem, `diskMounts` selects it and it is readable |
| Collection.SnapshotDisksAreDiscovered | lab_exporter.py:98-111 | every disk in a snapshot is also a disk in the capabilities, and a discovered disk is missing from a snapshot only when `diskMounts` leaves it out |
| Collection.FirstIPv4 | lab_exporter.py:260-265 | the address of the first AF_INET entry, or "" when there is none |
| Collection.CollectNics | lab_exporter.py:250-271 | a snapshot row exists for a counter NIC if and only if it is not `lo` and `nicNames` selects it; the row carries the NIC's IPv4 address or "", and zero rates |
| Collection.CollectNicsDistinct | lab_exporter.py:252-254 | counter names without repeats give snapshot rows without repeated names |
| Collection.NicWithoutIPv4 | lab_exporter.py:258-266 | a NIC with no AF_INET entry (or no address entry at all) is listed in the snapshot with "" but left out of the capabilities |
| Collection.DiscoverNics | lab_exporter.py:114-127 | the capabilities list a NIC if and only if it is not `lo` and has a non-empty first IPv4 address |
| RateTracker.ElapsedSeconds | lab_exporter.py:309 | dt is positive exactly when the tracker is initialized and the clock moved forward, and then it is the time elapsed; otherwise it is 0 |
| RateTracker.ClampedMbps | lab_exporter.py:324-327 | a clamped rate is never negative, and it is zero when the counter did not grow |
| RateTracker.RateNic | lab_exporter.py:323-330 | rating a row keeps its name and address |
| RateTracker.RateNicRates | lab_exporter.py:323-330 | the rates are non-negative; they are zero without a previous sample, without elapsed time, or when a counter went backwards; otherwise they are the rounded growth in megabits per second |
| RateTracker.UpdateSpec | lab_exporter.py:314-338 | the step-by-step loop equals the recursive reference definitions: rows `Annotate`, map `PrevAfter`, totals `WrittenTotal` |
| RateTracker.NetworkRateTracker.constructor | lab_exporter.py:298-302 | a new tracker has an empty previous-counter map, time 0 and is not initialized |
| RateTracker.NetworkRateTracker.Update | lab_exporter.py:304-340 | the rows, the map and the totals become the reference definitions of the old state; both totals are the rounded sums of the written rates; the time is recorded and the tracker is initialized |
| RateProperties.AnnotateAt | lab_exporter.py:314-335 | row k is rated against the map left by the rows before it |
| RateProperties.PrevAfterSpec | lab_exporter.py:335 | after the loop, each NIC that had counters maps to its current counters, and every other entry is unchanged |
| RateProperties.FirstSeen | lab_exporter.py:323 | a NIC not seen earlier in the loop is looked up in the map as it was before the update |
| RateProperties.AnnotateRow | lab_exporter.py:316-330 | every row keeps its name and address; a row without counters is left untouched; a row with counters gets non-negative rates |
| RateProperties.FirstRowRates | lab_exporter.py:323-330 | for a row whose NIC has counters: zero rates without elapsed time or a previous sample, zero for a counter that went backwards, otherwise the rounded growth |
| RateProperties.NoElapsedTimeZeroRates | lab_exporter.py:328-333 | with no elapsed time every row with counters gets zero rates, and both totals are zero |
| RateProperties.TotalsNonNegative | lab_exporter.py:332-338 | both totals, raw and rounded, are never negative |
| RateProperties.DistinctRowsAreFirstSeen | lab_exporter.py:314-335 | in rows with distinct names each row is the first of its NIC |
| Priming.PrimeThenReport | lab_exporter.py:513-525 | the first reported rows are rated against the counters of the priming update |
| Priming.PrimedRowsCarryDelta | lab_exporter.py:513-525 | after priming, the first report carries the rounded counter growth since the priming sample |
| Priming.UnprimedFirstReportIsZero | lab_exporter.py:309 | a fresh tracker's first update writes zero rates and zero totals |
| Registration.ObtainToken | lab_exporter.py:438-468 | a non-empty stored token skips registration. Otherwise the agent registers, and each reply has exactly one outcome: 200 with a token stores the credentials; 409 is "already registered"; 200 without a token, any other status (reported with that status) or a connection failure is terminal |
| Registration.RegisteredTokenIsReused | lab_exporter.py:423-451 | credentials stored by a registration are used on the next start without registering again |
| Registration.EmptyTokenIsNotReused | lab_exporter.py:438-451 | an empty token from the server is stored but does not count at the next start |
| Startup.FetchInitialConfig | lab_exporter.py:476-504 | the retry loop stops at the first pass that is not a retry, with the config on 200, as rejected on 401 and as cancelled when shutdown was requested; every earlier pass was a retry |
| Startup.SelectInterval | lab_exporter.py:507 | a non-zero `--interval` wins; otherwise the config's `reportIntervalSec`, otherwise 5 |
| ReportLoop.TrackVersion | lab_exporter.py:533-544 | after an accepted report the known version is the reported one (default 0). A refresh is needed exactly when a version was already known and differs. Nothing changes on other replies |
| ReportLoop.ApplyRefresh | lab_exporter.py:554-571 | only a 200 reply changes the config. Without `--interval`, a changed config also sets the interval from its `reportIntervalSec`. Anything else leaves the state alone |
| ReportLoop.ApplyRefreshIdempotent | lab_exporter.py:561-569 | applying the same refresh twice equals applying it once |
| ReportLoop.RoundStep | lab_exporter.py:520-571 | a 401 report ends the loop; otherwise the round tracks the version and refreshes exactly when asked to; without a refresh, the config and interval are kept; with one, the new state is the refresh reply applied to the state carrying the new version |
| ReportLoop.RunFrom | lab_exporter.py:519-573 | the loop ends at the end of the trace, at a shutdown pass, at a report rejected with 401, or after a round that leaves a negative interval (the pause refuses it); every completed round was running and its report was not rejected with 401 |
| ReportLoop.RunReportLoop | lab_exporter.py:519-573 | the imperative report loop equals the round-by-round definition, starting with no known version |
| ReportLoop.PinnedIntervalNeverChanges | lab_exporter.py:567-568 | with `--interval` given (even 0) the interval never changes |
| ReportLoop.IntervalFollowsConfig | lab_exporter.py:564-568 | without `--interval`, the interval keeps matching the current config's `reportIntervalSec` |
| ReportLoop.ConfigComesFromServer | lab_exporter.py:561-564 | the final config is the initial one, or one served by a successful refresh in a round that asked for it |
| ReportLoop.RefreshesOnlyGrow | lab_exporter.py:541-544 | each recorded refresh is a completed round with an accepted report |
| ReportLoop.KnownVersionIsLastReported | lab_exporter.py:537-544 | the known version is the one from the last accepted report, or the starting one when no report was accepted |
| ReportLoop.FailedRefreshIsNotRetried | lab_exporter.py:541-571 | after a failed refresh, a report with the same version does not ask again, so the old config stays |
| ReportLoop.OneRefreshPerVersionChange | lab_exporter.py:519-571 | reports with versions v, v, w cause exactly one refresh, in the third round, and the first report only records v; the loop stops early only if that refresh brings a negative interval |
| Agent.RunAgent | lab_exporter.py:415-573 | the run reaches the report loop exactly when it has a token and the first pass of the config fetch that is not a retry returns the config. The other fetch outcomes (401, shutdown, only retries) are fixed by that same pass. A registration also stores the normalised server URL. The loop starts with the selected interval, which either stays pinned or follows the config |

## Left out

- Hardware probing (psutil, pynvml) and every snapshot field other than
  the NIC rows and the two network totals. These are hardware readings
  that do not decide anything; their facts are parameters.
- HTTP and JSON. Replies are abstracted to a status code and the keys that
  are read. A body that is not JSON is not modelled. A JSON `null` for
  `token`, `configVersion` or `reportIntervalSec` is treated like an
  absent key; in the source, `null` gives `None` rather than the default.
- Reading and writing the local config file. Only the in-memory update of
  lines 450-451 is modelled. Its values are abstracted to strings.
- Signals, `time.sleep` and `time.time()`. The shutdown flag is one boolean
  per loop pass in the trace, and the current time is a parameter of
  `Update`. Of the pauses only one decision is modelled: the pause at the
  end of a report round refuses a negative interval with an uncaught
  exception, which ends the loop (`PauseRejected`).
- `get_primary_ip`, argparse, hostname selection and all logging,
  including the warning after 60 retries of the config fetch.
- Floating point. Rates are exact reals, and `round` is ties-to-even on
  exact values rather than on binary floats.
- 64-bit counter wrap-around. Counters are unbounded naturals; a counter
  that goes backwards is clamped to zero, as in the source.
- The `config` parameter of `update`. Its only use, the `nicNames` lookup
  at line 306, is never read again.
- NVML errors in the middle of the GPU loop. In the source such an error
  leaves a partial GPU list. `Collection.SelectedGpus` models a loop that
  completes, and a skipped or unavailable NVML is a count of 0.
- Unbounded running. Both loops run over a finite trace, so a run that
  never stops is seen only through its finite prefixes.
- Collection.CollectNics: stated as membership in both directions, plus a
  bound on the length. The rows follow the order of the counter names, but
  that order is not stated, because no decision of the agent depends on it:
  the tracker finds each row's previous counters by name.
- Collection.DiscoverNics: stated as membership in both directions. Order
  and multiplicity are not stated, because nothing in the agent reads the
  list back after sending it.
- Collection.UsableDisks: also stated as membership only, plus a bound on
  the length. Order is not stated, because no decision of the agent depends
  on the order of the disk rows.
