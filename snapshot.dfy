/** The parts of a per-tick snapshot that the rate tracker reads and writes. */
module Snapshots {

  /** One NIC's cumulative byte counters, as `net_io_counters(pernic=True)`
      reports them. */
  datatype Counters = Counters(bytesRecv: nat, bytesSent: nat)

  /** One entry of the snapshot's `nics` list. */
  datatype NicReport = NicReport(name: string, ipv4: string, rxMbps: real, txMbps: real)

  /** No two rows name the same NIC. */
  predicate DistinctNames(rows: seq<NicReport>) {
    forall i, j :: 0 <= i < j < |rows| ==> rows[i].name != rows[j].name
  }

  /** The snapshot dictionary: its `nics` list, whose entries the tracker
      rewrites one by one, and the two totals it sets. */
  class Snapshot {
    var nics: seq<NicReport>
    var networkRxMbps: real
    var networkTxMbps: real

    /** A fresh snapshot with the given NIC rows and zero totals. */
    constructor (rows: seq<NicReport>)
      ensures nics == rows
      ensures networkRxMbps == 0.0 && networkTxMbps == 0.0
    {
      nics := rows;
      networkRxMbps, networkTxMbps := 0.0, 0.0;
    }
  }
}
