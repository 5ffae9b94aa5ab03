/** The network rate tracker: turns cumulative per-NIC byte counters sampled
    at two points in time into Mbps figures written into the snapshot. The
    counters (`net_io_counters`) and the clock (`time.time()`) are parameters
    of `Update`. */
module RateTracker {
  import opened Optional
  import opened Rounding
  import opened Snapshots

  datatype Direction = Rx | Tx

  /** The elapsed time used for this update: positive only once the tracker
      has a previous sample and the clock has moved forward; 0 otherwise. */
  function ElapsedSeconds(initialized: bool, prevTime: real, now: real): (dt: real)
    ensures dt >= 0.0
    ensures dt > 0.0 <==> initialized && now - prevTime > 0.0
    ensures dt > 0.0 ==> dt == now - prevTime
  {
    if initialized && now - prevTime > 0.0 then now - prevTime else 0.0
  }

  /** `round(max((cur - prev) * 8 / (dt * 1_000_000), 0), 1)`. */
  function ClampedMbps(cur: nat, prev: nat, dt: real): (r: real)
    requires dt > 0.0
    ensures r >= 0.0
    ensures cur <= prev ==> r == 0.0
  {
    var mbps := ((cur - prev) as real * 8.0) / (dt * 1000000.0);
    Round1NonNegative(if mbps > 0.0 then mbps else 0.0);
    Round1(if mbps > 0.0 then mbps else 0.0)
  }

  function Bytes(c: Counters, d: Direction): nat {
    match d
    case Rx => c.bytesRecv
    case Tx => c.bytesSent
  }

  function Rate(n: NicReport, d: Direction): real {
    match d
    case Rx => n.rxMbps
    case Tx => n.txMbps
  }

  /** The row written for a NIC whose current counters are `cur`, given the
      previous counters recorded for it, if any. */
  function RateNic(nic: NicReport, cur: Counters, last: Option<Counters>, dt: real): (r: NicReport)
    requires dt >= 0.0
    ensures r.name == nic.name && r.ipv4 == nic.ipv4
  {
    if dt > 0.0 && last.Some? then
      nic.(rxMbps := ClampedMbps(cur.bytesRecv, last.value.bytesRecv, dt),
           txMbps := ClampedMbps(cur.bytesSent, last.value.bytesSent, dt))
    else
      nic.(rxMbps := 0.0, txMbps := 0.0)
  }

  /** The rates `RateNic` writes: never negative; zero without a previous
      sample or elapsed time; zero when a counter went backwards; otherwise
      the rounded difference in megabits per second. */
  lemma RateNicRates(nic: NicReport, cur: Counters, last: Option<Counters>, dt: real)
    requires dt >= 0.0
    ensures forall d :: Rate(RateNic(nic, cur, last, dt), d) >= 0.0
    ensures dt == 0.0 || last.None? ==> forall d :: Rate(RateNic(nic, cur, last, dt), d) == 0.0
    ensures forall d :: last.Some? && Bytes(cur, d) <= Bytes(last.value, d) ==> Rate(RateNic(nic, cur, last, dt), d) == 0.0
    ensures forall d :: dt > 0.0 && last.Some? && Bytes(cur, d) >= Bytes(last.value, d) ==>
      Rate(RateNic(nic, cur, last, dt), d) == Round1(((Bytes(cur, d) - Bytes(last.value, d)) as real * 8.0) / (dt * 1000000.0))
  {
  }

  function Lookup(prev: map<string, Counters>, name: string): Option<Counters> {
    if name in prev then Some(prev[name]) else None
  }

  /** What one loop iteration does to a row: a NIC without counters is left
      as it is; any other gets its rates. */
  function StepNic(prev: map<string, Counters>, counters: map<string, Counters>, dt: real, nic: NicReport)
    : NicReport
    requires dt >= 0.0
  {
    if nic.name in counters then RateNic(nic, counters[nic.name], Lookup(prev, nic.name), dt) else nic
  }

  /** The previous-counter map after one loop iteration: a NIC with counters
      has them recorded; a NIC without is skipped. */
  function NextPrev(prev: map<string, Counters>, counters: map<string, Counters>, nic: NicReport)
    : map<string, Counters>
  {
    if nic.name in counters then prev[nic.name := counters[nic.name]] else prev
  }

  /** The previous-counter map after the loop has run over `nics`. */
  function PrevAfter(prev: map<string, Counters>, nics: seq<NicReport>, counters: map<string, Counters>)
    : map<string, Counters>
    decreases |nics|
  {
    if nics == [] then prev else PrevAfter(NextPrev(prev, counters, nics[0]), nics[1..], counters)
  }

  /** The rows after the loop has run over `nics`, starting from `prev`. */
  function Annotate(prev: map<string, Counters>, nics: seq<NicReport>, counters: map<string, Counters>, dt: real)
    : (r: seq<NicReport>)
    requires dt >= 0.0
    ensures |r| == |nics|
    decreases |nics|
  {
    if nics == [] then []
    else [StepNic(prev, counters, dt, nics[0])] + Annotate(NextPrev(prev, counters, nics[0]), nics[1..], counters, dt)
  }

  /** What a row adds to the total for direction `d`: rows without
      counters are skipped by the loop and add nothing. */
  function Contribution(row: NicReport, counters: map<string, Counters>, d: Direction): real {
    if row.name in counters then Rate(row, d) else 0.0
  }

  /** Sum of the rates of the rows that had counters: the ones the loop wrote. */
  function WrittenTotal(rows: seq<NicReport>, counters: map<string, Counters>, d: Direction): real {
    if rows == [] then 0.0 else Contribution(rows[0], counters, d) + WrittenTotal(rows[1..], counters, d)
  }

  /** The variables of the update loop: the snapshot rows, the
      previous-counter map and the two running totals. */
  datatype LoopState = LoopState(rows: seq<NicReport>, prev: map<string, Counters>, totalRx: real, totalTx: real)

  /** The update loop from row `i` on, one row per step: a row with counters
      gets its rates, is added to the totals and has its counters recorded;
      a row without counters is skipped. */
  function UpdateFrom(counters: map<string, Counters>, dt: real, i: nat, s: LoopState): (r: LoopState)
    requires dt >= 0.0 && i <= |s.rows|
    ensures |r.rows| == |s.rows|
    decreases |s.rows| - i
  {
    if i == |s.rows| then s
    else UpdateFrom(counters, dt, i + 1, UpdateStep(counters, dt, i, s))
  }

  /** Row `i` of the update loop. */
  function UpdateStep(counters: map<string, Counters>, dt: real, i: nat, s: LoopState): (r: LoopState)
    requires dt >= 0.0 && i < |s.rows|
    ensures |r.rows| == |s.rows|
  {
    var nic := s.rows[i];
    if nic.name in counters then
      var cur := counters[nic.name];
      var row := RateNic(nic, cur, Lookup(s.prev, nic.name), dt);
      LoopState(s.rows[i := row], s.prev[nic.name := cur], s.totalRx + row.rxMbps, s.totalTx + row.txMbps)
    else s
  }

  /** One step of the loop, seen through the recursive definitions: row `i`
      becomes `StepNic`, the map `NextPrev`, the totals grow by the row's
      contribution. */
  lemma UpdateStepSpec(counters: map<string, Counters>, dt: real, i: nat, s: LoopState)
    requires dt >= 0.0 && i < |s.rows|
    ensures var row := StepNic(s.prev, counters, dt, s.rows[i]);
      UpdateStep(counters, dt, i, s) ==
      LoopState(s.rows[i := row], NextPrev(s.prev, counters, s.rows[i]),
                s.totalRx + Contribution(row, counters, Rx), s.totalTx + Contribution(row, counters, Tx))
  {
    if s.rows[i].name !in counters {
      assert s.rows[i := s.rows[i]] == s.rows;
    }
  }

  /** Running the loop from row `i` on the rows: the rows before `i` are kept
      and the rest are annotated. */
  lemma {:induction false} UpdateFromRows(counters: map<string, Counters>, dt: real, i: nat, s: LoopState)
    requires dt >= 0.0 && i <= |s.rows|
    ensures UpdateFrom(counters, dt, i, s).rows == s.rows[..i] + Annotate(s.prev, s.rows[i..], counters, dt)
    decreases |s.rows| - i
  {
    if i == |s.rows| {
      assert s.rows[..i] == s.rows && s.rows[i..] == [];
    } else {
      var s' := UpdateStep(counters, dt, i, s);
      UpdateStepSpec(counters, dt, i, s);
      UpdateFromRows(counters, dt, i + 1, s');
      var row := StepNic(s.prev, counters, dt, s.rows[i]);
      var rest := Annotate(s'.prev, s.rows[i + 1..], counters, dt);
      assert s.rows[i..][1..] == s.rows[i + 1..];
      assert s'.rows[i + 1..] == s.rows[i + 1..];
      assert s'.rows[..i + 1] == s.rows[..i] + [row];
    }
  }

  /** Running the loop from row `i` on the previous-counter map. */
  lemma {:induction false} UpdateFromPrev(counters: map<string, Counters>, dt: real, i: nat, s: LoopState)
    requires dt >= 0.0 && i <= |s.rows|
    ensures UpdateFrom(counters, dt, i, s).prev == PrevAfter(s.prev, s.rows[i..], counters)
    decreases |s.rows| - i
  {
    if i == |s.rows| {
      assert s.rows[i..] == [];
    } else {
      var s' := UpdateStep(counters, dt, i, s);
      UpdateStepSpec(counters, dt, i, s);
      UpdateFromPrev(counters, dt, i + 1, s');
      assert s.rows[i..][1..] == s.rows[i + 1..];
      assert s'.rows[i + 1..] == s.rows[i + 1..];
    }
  }

  /** Running the loop from row `i` on the totals: each grows by the written
      rates of the annotated rest. */
  lemma {:induction false} UpdateFromTotals(counters: map<string, Counters>, dt: real, i: nat, s: LoopState)
    requires dt >= 0.0 && i <= |s.rows|
    ensures var rest := Annotate(s.prev, s.rows[i..], counters, dt);
      && UpdateFrom(counters, dt, i, s).totalRx == s.totalRx + WrittenTotal(rest, counters, Rx)
      && UpdateFrom(counters, dt, i, s).totalTx == s.totalTx + WrittenTotal(rest, counters, Tx)
    decreases |s.rows| - i
  {
    if i == |s.rows| {
      assert s.rows[i..] == [];
    } else {
      var s' := UpdateStep(counters, dt, i, s);
      UpdateStepSpec(counters, dt, i, s);
      UpdateFromTotals(counters, dt, i + 1, s');
      var row := StepNic(s.prev, counters, dt, s.rows[i]);
      var rest := Annotate(s'.prev, s.rows[i + 1..], counters, dt);
      assert s.rows[i..][1..] == s.rows[i + 1..];
      assert s'.rows[i + 1..] == s.rows[i + 1..];
      assert Annotate(s.prev, s.rows[i..], counters, dt) == [row] + rest;
      assert ([row] + rest)[0] == row && ([row] + rest)[1..] == rest;
    }
  }

  /** The whole loop, started on the snapshot rows with no totals. */
  lemma UpdateSpec(counters: map<string, Counters>, dt: real, rows: seq<NicReport>, prev: map<string, Counters>)
    requires dt >= 0.0
    ensures var r := UpdateFrom(counters, dt, 0, LoopState(rows, prev, 0.0, 0.0));
      && r.rows == Annotate(prev, rows, counters, dt)
      && r.prev == PrevAfter(prev, rows, counters)
      && r.totalRx == WrittenTotal(r.rows, counters, Rx)
      && r.totalTx == WrittenTotal(r.rows, counters, Tx)
  {
    var s := LoopState(rows, prev, 0.0, 0.0);
    UpdateFromRows(counters, dt, 0, s);
    UpdateFromPrev(counters, dt, 0, s);
    UpdateFromTotals(counters, dt, 0, s);
    assert rows[..0] == [] && rows[0..] == rows;
  }

  class NetworkRateTracker {
    /** NIC name to the counters recorded at the previous update. */
    var prev: map<string, Counters>
    var prevTime: real
    var initialized: bool

    constructor ()
      ensures prev == map[] && prevTime == 0.0 && !initialized
    {
      prev, prevTime, initialized := map[], 0.0, false;
    }

    /** Writes each NIC's rates into the snapshot rows, the totals into the
        snapshot, and records the current counters and time. */
    method Update(snapshot: Snapshot, counters: map<string, Counters>, now: real)
      modifies this, snapshot
      ensures prevTime == now && initialized
      ensures prev == PrevAfter(old(prev), old(snapshot.nics), counters)
      ensures snapshot.nics ==
        Annotate(old(prev), old(snapshot.nics), counters, ElapsedSeconds(old(initialized), old(prevTime), now))
      ensures snapshot.networkRxMbps == Round1(WrittenTotal(snapshot.nics, counters, Rx))
      ensures snapshot.networkTxMbps == Round1(WrittenTotal(snapshot.nics, counters, Tx))
    {
      var dt := ElapsedSeconds(initialized, prevTime, now);
      ghost var start := LoopState(snapshot.nics, prev, 0.0, 0.0);
      var totalRx, totalTx := 0.0, 0.0;
      var count := |snapshot.nics|;
      for i := 0 to count
        invariant |snapshot.nics| == count
        invariant UpdateFrom(counters, dt, 0, start) == UpdateFrom(counters, dt, i, LoopState(snapshot.nics, prev, totalRx, totalTx))
      {
        ghost var before := LoopState(snapshot.nics, prev, totalRx, totalTx);
        var nic := snapshot.nics[i];
        var name := nic.name;
        if name in counters {
          var cur := counters[name];
          var row;
          if dt > 0.0 && name in prev {
            row := nic.(rxMbps := ClampedMbps(cur.bytesRecv, prev[name].bytesRecv, dt),
                        txMbps := ClampedMbps(cur.bytesSent, prev[name].bytesSent, dt));
          } else {
            row := nic.(rxMbps := 0.0, txMbps := 0.0);
          }
          assert row == RateNic(nic, cur, Lookup(prev, name), dt);
          snapshot.nics := snapshot.nics[i := row];
          totalRx := totalRx + row.rxMbps;
          totalTx := totalTx + row.txMbps;
          prev := prev[name := cur];
        }
        assert LoopState(snapshot.nics, prev, totalRx, totalTx) == UpdateStep(counters, dt, i, before);
      }
      assert UpdateFrom(counters, dt, count, LoopState(snapshot.nics, prev, totalRx, totalTx))
        == LoopState(snapshot.nics, prev, totalRx, totalTx);
      UpdateSpec(counters, dt, start.rows, start.prev);
      snapshot.networkRxMbps := Round1(totalRx);
      snapshot.networkTxMbps := Round1(totalTx);
      prevTime := now;
      initialized := true;
    }
  }
}
