/** What the tracker promises about the rows and the previous-counter map
    it leaves behind, derived from the recursive definitions that
    `NetworkRateTracker.Update` is proved against. */
module RateProperties {
  import opened Optional
  import opened Rounding
  import opened Snapshots
  import opened RateTracker

  /** Names of the rows that had counters: the ones the loop records. */
  function Processed(nics: seq<NicReport>, counters: map<string, Counters>): set<string> {
    set n | n in nics && n.name in counters :: n.name
  }

  /** Row `k` after the loop is what the loop body makes of input row `k`
      given the map left by the rows before it. */
  lemma {:induction false} AnnotateAt(prev: map<string, Counters>, nics: seq<NicReport>,
                                      counters: map<string, Counters>, dt: real, k: nat)
    requires dt >= 0.0 && k < |nics|
    ensures Annotate(prev, nics, counters, dt)[k] ==
            StepNic(PrevAfter(prev, nics[..k], counters), counters, dt, nics[k])
    decreases k
  {
    if k == 0 {
      assert nics[..0] == [];
    } else {
      AnnotateAt(NextPrev(prev, counters, nics[0]), nics[1..], counters, dt, k - 1);
      assert nics[..k][0] == nics[0] && nics[..k][1..] == nics[1..][..k - 1];
    }
  }

  /** The map after the loop: it holds the old names and the processed ones;
      a processed name maps to its current counters, any other keeps its
      old counters. */
  lemma {:induction false} PrevAfterSpec(prev: map<string, Counters>, nics: seq<NicReport>,
                                         counters: map<string, Counters>)
    ensures PrevAfter(prev, nics, counters).Keys == prev.Keys + Processed(nics, counters)
    ensures forall n :: n in Processed(nics, counters) ==> PrevAfter(prev, nics, counters)[n] == counters[n]
    ensures forall n :: n in prev && n !in Processed(nics, counters) ==> PrevAfter(prev, nics, counters)[n] == prev[n]
    decreases |nics|
  {
    if nics != [] {
      var p1 := NextPrev(prev, counters, nics[0]);
      PrevAfterSpec(p1, nics[1..], counters);
      var head := if nics[0].name in counters then {nics[0].name} else {};
      forall n
        ensures n in Processed(nics, counters) <==> n in head || n in Processed(nics[1..], counters)
      {
        if n in Processed(nics, counters) {
          var x :| x in nics && x.name in counters && x.name == n;
          if x != nics[0] {
            assert x in nics[1..];
          }
        }
        if n in Processed(nics[1..], counters) {
          var x :| x in nics[1..] && x.name in counters && x.name == n;
          assert x in nics;
        }
      }
    }
  }

  /** A name that no earlier row with counters carried still has its old
      entry, or none, when its row is reached. */
  lemma FirstSeen(prev: map<string, Counters>, nics: seq<NicReport>, counters: map<string, Counters>, k: nat)
    requires k < |nics|
    requires nics[k].name !in Processed(nics[..k], counters)
    ensures Lookup(PrevAfter(prev, nics[..k], counters), nics[k].name) == Lookup(prev, nics[k].name)
  {
    PrevAfterSpec(prev, nics[..k], counters);
  }

  /** Every row keeps its name and address; a row without counters is left
      exactly as it was; a row with counters gets non-negative rates. */
  lemma AnnotateRow(prev: map<string, Counters>, nics: seq<NicReport>,
                    counters: map<string, Counters>, dt: real, k: nat)
    requires dt >= 0.0 && k < |nics|
    ensures Annotate(prev, nics, counters, dt)[k].name == nics[k].name
    ensures Annotate(prev, nics, counters, dt)[k].ipv4 == nics[k].ipv4
    ensures nics[k].name !in counters ==> Annotate(prev, nics, counters, dt)[k] == nics[k]
    ensures nics[k].name in counters ==>
      forall d :: Rate(Annotate(prev, nics, counters, dt)[k], d) >= 0.0
  {
    AnnotateAt(prev, nics, counters, dt, k);
    var last := Lookup(PrevAfter(prev, nics[..k], counters), nics[k].name);
    if nics[k].name in counters {
      RateNicRates(nics[k], counters[nics[k].name], last, dt);
    }
  }

  /** The rates of the first row of a NIC with counters: zero when there is
      no elapsed time or no previous sample of that NIC, zero when a counter
      went backwards, and otherwise the rounded difference of the current
      and previous counters in megabits per second. */
  lemma FirstRowRates(prev: map<string, Counters>, nics: seq<NicReport>,
                      counters: map<string, Counters>, dt: real, k: nat)
    requires dt >= 0.0 && k < |nics|
    requires nics[k].name in counters && nics[k].name !in Processed(nics[..k], counters)
    ensures var row := Annotate(prev, nics, counters, dt)[k];
      dt == 0.0 || nics[k].name !in prev ==> row.rxMbps == 0.0 && row.txMbps == 0.0
    ensures var row := Annotate(prev, nics, counters, dt)[k];
      var name := nics[k].name;
      forall d :: name in prev && Bytes(counters[name], d) <= Bytes(prev[name], d) ==> Rate(row, d) == 0.0
    ensures var row := Annotate(prev, nics, counters, dt)[k];
      var name := nics[k].name;
      forall d :: dt > 0.0 && name in prev && Bytes(counters[name], d) >= Bytes(prev[name], d) ==>
        Rate(row, d) == Round1(((Bytes(counters[name], d) - Bytes(prev[name], d)) as real * 8.0) / (dt * 1000000.0))
  {
    AnnotateAt(prev, nics, counters, dt, k);
    FirstSeen(prev, nics, counters, k);
    RateNicRates(nics[k], counters[nics[k].name], Lookup(prev, nics[k].name), dt);
  }

  /** With no elapsed time (the first update, or a clock that did not move)
      every row with counters gets zero rates and both totals are zero. */
  lemma {:induction false} NoElapsedTimeZeroRates(prev: map<string, Counters>, nics: seq<NicReport>,
                                                  counters: map<string, Counters>)
    ensures forall d :: WrittenTotal(Annotate(prev, nics, counters, 0.0), counters, d) == 0.0
    ensures forall k :: 0 <= k < |nics| && nics[k].name in counters ==>
      Annotate(prev, nics, counters, 0.0)[k].rxMbps == 0.0 && Annotate(prev, nics, counters, 0.0)[k].txMbps == 0.0
    decreases |nics|
  {
    if nics != [] {
      NoElapsedTimeZeroRates(NextPrev(prev, counters, nics[0]), nics[1..], counters);
      RateNicRates(nics[0], if nics[0].name in counters then counters[nics[0].name] else Counters(0, 0),
                   Lookup(prev, nics[0].name), 0.0);
      forall k | 0 <= k < |nics| && nics[k].name in counters
        ensures Annotate(prev, nics, counters, 0.0)[k].rxMbps == 0.0
        ensures Annotate(prev, nics, counters, 0.0)[k].txMbps == 0.0
      {
        if k > 0 {
          assert nics[k] == nics[1..][k - 1];
        }
      }
    }
  }

  /** Both totals are never negative. */
  lemma {:induction false} TotalsNonNegative(prev: map<string, Counters>, nics: seq<NicReport>,
                                             counters: map<string, Counters>, dt: real, d: Direction)
    requires dt >= 0.0
    ensures WrittenTotal(Annotate(prev, nics, counters, dt), counters, d) >= 0.0
    ensures Round1(WrittenTotal(Annotate(prev, nics, counters, dt), counters, d)) >= 0.0
    decreases |nics|
  {
    var rows := Annotate(prev, nics, counters, dt);
    if nics != [] {
      TotalsNonNegative(NextPrev(prev, counters, nics[0]), nics[1..], counters, dt, d);
      AnnotateRow(prev, nics, counters, dt, 0);
      assert rows[1..] == Annotate(NextPrev(prev, counters, nics[0]), nics[1..], counters, dt);
    }
    Round1NonNegative(WrittenTotal(rows, counters, d));
  }

  /** When no two rows name the same NIC (as `collect_snapshot` builds
      them), every row is the first of its name, so `FirstRowRates` applies
      to each of them. */
  lemma DistinctRowsAreFirstSeen(nics: seq<NicReport>, counters: map<string, Counters>, k: nat)
    requires DistinctNames(nics) && k < |nics|
    ensures nics[k].name !in Processed(nics[..k], counters)
  {
    forall x | x in nics[..k]
      ensures x.name != nics[k].name
    {
      var j :| 0 <= j < k && nics[..k][j] == x;
      assert nics[j] == x;
    }
  }
}
