/** The way the entry point uses the tracker: one throwaway update on a
    first snapshot before the report loop, so that the first reported
    snapshot already carries rates measured against that sample. */
module Priming {
  import opened Optional
  import opened Rounding
  import opened Snapshots
  import opened RateTracker
  import opened RateProperties

  /** A fresh tracker updated with a priming snapshot at time `t0`, then with
      the first reported snapshot at time `t1`. */
  method PrimeThenReport(primeRows: seq<NicReport>, primeCounters: map<string, Counters>, t0: real,
                         rows: seq<NicReport>, counters: map<string, Counters>, t1: real)
    returns (tracker: NetworkRateTracker, report: Snapshot)
    ensures tracker.initialized && tracker.prevTime == t1
    ensures report.nics ==
      Annotate(PrevAfter(map[], primeRows, primeCounters), rows, counters, if t1 - t0 > 0.0 then t1 - t0 else 0.0)
    ensures tracker.prev == PrevAfter(PrevAfter(map[], primeRows, primeCounters), rows, counters)
  {
    tracker := new NetworkRateTracker();
    var prime := new Snapshot(primeRows);
    tracker.Update(prime, primeCounters, t0);
    report := new Snapshot(rows);
    tracker.Update(report, counters, t1);
  }

  /** After priming, a NIC sampled by the priming update gets, in the first
      reported snapshot, the rounded rate of its counters' growth since that
      sample (when time moved forward and the counter did not go backwards). */
  lemma PrimedRowsCarryDelta(primeRows: seq<NicReport>, primeCounters: map<string, Counters>,
                             rows: seq<NicReport>, counters: map<string, Counters>, dt: real, k: nat, d: Direction)
    requires dt > 0.0 && k < |rows| && DistinctNames(rows)
    requires rows[k].name in counters && rows[k].name in Processed(primeRows, primeCounters)
    requires Bytes(counters[rows[k].name], d) >= Bytes(primeCounters[rows[k].name], d)
    ensures Rate(Annotate(PrevAfter(map[], primeRows, primeCounters), rows, counters, dt)[k], d) ==
      Round1(((Bytes(counters[rows[k].name], d) - Bytes(primeCounters[rows[k].name], d)) as real * 8.0)
             / (dt * 1000000.0))
  {
    var prev := PrevAfter(map[], primeRows, primeCounters);
    PrevAfterSpec(map[], primeRows, primeCounters);
    DistinctRowsAreFirstSeen(rows, counters, k);
    FirstRowRates(prev, rows, counters, dt, k);
  }

  /** Without priming, the first update of a fresh tracker reports zero for
      every NIC and zero totals. */
  lemma UnprimedFirstReportIsZero(rows: seq<NicReport>, counters: map<string, Counters>, now: real)
    ensures ElapsedSeconds(false, 0.0, now) == 0.0
    ensures forall k :: 0 <= k < |rows| && rows[k].name in counters ==>
      Annotate(map[], rows, counters, 0.0)[k].rxMbps == 0.0 && Annotate(map[], rows, counters, 0.0)[k].txMbps == 0.0
    ensures forall d :: Round1(WrittenTotal(Annotate(map[], rows, counters, 0.0), counters, d)) == 0.0
  {
    NoElapsedTimeZeroRates(map[], rows, counters);
    Round1NonNegative(0.0);
  }
}
