/** The selection logic of `collect_snapshot` and `discover_hardware`: which
    GPUs, disks and NICs make it into a snapshot or into the capabilities.
    The hardware facts themselves are parameters. */
module Collection {
  import opened Optional
  import opened Config
  import opened Snapshots

  /** Filesystem types that are never reported. */
  const PseudoFilesystems: seq<string> := ["squashfs", "tmpfs", "devtmpfs", "overlay"]

  /** The loopback interface, never reported. */
  const Loopback: string := "lo"

  /** A mounted partition; `readable` is false when `disk_usage` raises
      `PermissionError` for its mount point. */
  datatype Partition = Partition(mountpoint: string, fstype: string, readable: bool)

  datatype AddressFamily = Inet | Inet6 | Packet

  /** One entry of `net_if_addrs()[nic]`. */
  datatype Address = Address(family: AddressFamily, address: string)

  /** A NIC as listed in the capabilities. */
  datatype NicSpec = NicSpec(name: string, ipv4: string)

  /** GPU indices visited by the collection loop: `range(count)` less the
      indices the config's `gpuIndices` leaves out. */
  function SelectedGpus(count: nat, gpuIndices: Option<seq<int>>): (r: seq<nat>)
    ensures forall i: nat :: i in r <==> i < count && Allowed(gpuIndices, i)
    ensures forall j, k :: 0 <= j < k < |r| ==> r[j] < r[k]
    decreases count
  {
    if count == 0 then []
    else
      var i: nat := count - 1;
      var r := SelectedGpus(i, gpuIndices);
      assert forall j :: 0 <= j < |r| ==> r[j] in r;
      r + (if Allowed(gpuIndices, i) then [i] else [])
  }

  /** Partitions that are reported: not a pseudo filesystem, selected by
      `diskMounts`, and readable. */
  function UsableDisks(parts: seq<Partition>, diskMounts: Option<seq<string>>): (r: seq<Partition>)
    ensures forall p :: p in r <==>
      p in parts && p.fstype !in PseudoFilesystems && Allowed(diskMounts, p.mountpoint) && p.readable
    ensures |r| <= |parts|
  {
    if parts == [] then []
    else
      var p := parts[0];
      var keep := p.fstype !in PseudoFilesystems && Allowed(diskMounts, p.mountpoint) && p.readable;
      (if keep then [p] else []) + UsableDisks(parts[1..], diskMounts)
  }

  /** Entry `k` is the first `AF_INET` entry. */
  predicate IsFirstIPv4(addrs: seq<Address>, k: nat)
    requires k < |addrs|
  {
    addrs[k].family == Inet && forall j :: 0 <= j < k ==> addrs[j].family != Inet
  }

  /** The address of the first `AF_INET` entry, or "" when there is none. */
  function FirstIPv4(addrs: seq<Address>): (r: string)
    ensures (forall k :: 0 <= k < |addrs| ==> addrs[k].family != Inet) ==> r == ""
    ensures forall k :: 0 <= k < |addrs| && IsFirstIPv4(addrs, k) ==> r == addrs[k].address
  {
    if addrs == [] then ""
    else if addrs[0].family == Inet then addrs[0].address
    else
      var r := FirstIPv4(addrs[1..]);
      assert forall k :: 1 <= k < |addrs| ==> addrs[1..][k - 1] == addrs[k];
      r
  }

  /** The IPv4 address `collect_snapshot` reports for a NIC: "" when the NIC
      has no address entry at all. */
  function Ipv4Of(ifAddrs: map<string, seq<Address>>, name: string): string {
    if name in ifAddrs then FirstIPv4(ifAddrs[name]) else ""
  }

  /** The `nics` list of a snapshot, built from the NIC names of
      `net_io_counters` in order: every NIC but `lo` that `nicNames` selects,
      with its IPv4 address (possibly "") and placeholder rates of zero. */
  function CollectNics(names: seq<string>, ifAddrs: map<string, seq<Address>>, nicNames: Option<seq<string>>)
    : (r: seq<NicReport>)
    ensures forall n :: n in r ==>
      n.name in names && n.name != Loopback && Allowed(nicNames, n.name) &&
      n == NicReport(n.name, Ipv4Of(ifAddrs, n.name), 0.0, 0.0)
    ensures forall name :: name in names && name != Loopback && Allowed(nicNames, name) ==>
      NicReport(name, Ipv4Of(ifAddrs, name), 0.0, 0.0) in r
    ensures |r| <= |names|
  {
    if names == [] then []
    else
      var name := names[0];
      var head := if name != Loopback && Allowed(nicNames, name)
        then [NicReport(name, Ipv4Of(ifAddrs, name), 0.0, 0.0)] else [];
      head + CollectNics(names[1..], ifAddrs, nicNames)
  }

  /** The NICs of the capabilities, from the entries of `net_if_addrs()` in
      order: every NIC but `lo` whose first IPv4 address is non-empty. */
  function DiscoverNics(ifAddrs: seq<(string, seq<Address>)>): (r: seq<NicSpec>)
    ensures forall s :: s in r ==>
      s.name != Loopback && s.ipv4 != "" &&
      exists e :: e in ifAddrs && e.0 == s.name && FirstIPv4(e.1) == s.ipv4
    ensures forall e :: e in ifAddrs && e.0 != Loopback && FirstIPv4(e.1) != "" ==>
      NicSpec(e.0, FirstIPv4(e.1)) in r
  {
    if ifAddrs == [] then []
    else
      var e := ifAddrs[0];
      var ipv4 := FirstIPv4(e.1);
      var head := if e.0 != Loopback && ipv4 != "" then [NicSpec(e.0, ipv4)] else [];
      var rest := DiscoverNics(ifAddrs[1..]);
      assert forall x :: x in ifAddrs[1..] ==> x in ifAddrs;
      head + rest
  }

  /** Reading the counters' NIC names from a dictionary (no repeats) gives a
      `nics` list that names each NIC once. */
  lemma {:induction false} CollectNicsDistinct(names: seq<string>, ifAddrs: map<string, seq<Address>>,
                                               nicNames: Option<seq<string>>)
    requires forall i, j :: 0 <= i < j < |names| ==> names[i] != names[j]
    ensures DistinctNames(CollectNics(names, ifAddrs, nicNames))
  {
    if names != [] {
      var rest := CollectNics(names[1..], ifAddrs, nicNames);
      CollectNicsDistinct(names[1..], ifAddrs, nicNames);
      forall n | n in rest ensures n.name != names[0] {
        assert n.name in names[1..];
      }
    }
  }

  /** A NIC without an IPv4 address is still listed in a snapshot, with
      `ipv4 == ""`, while the capabilities leave it out. */
  lemma NicWithoutIPv4(name: string, names: seq<string>,
                       ifAddrs: map<string, seq<Address>>, nicNames: Option<seq<string>>,
                       discovered: seq<(string, seq<Address>)>)
    requires name in names && name != Loopback && Allowed(nicNames, name)
    requires name in ifAddrs ==> forall k :: 0 <= k < |ifAddrs[name]| ==> ifAddrs[name][k].family != Inet
    requires forall e :: e in discovered && e.0 == name ==> forall k :: 0 <= k < |e.1| ==> e.1[k].family != Inet
    ensures NicReport(name, "", 0.0, 0.0) in CollectNics(names, ifAddrs, nicNames)
    ensures forall s :: s in DiscoverNics(discovered) ==> s.name != name
  {
  }

  /** The disks of a snapshot are among the disks of the capabilities:
      discovery applies the same pseudo-filesystem and permission tests with
      no mount filter, so a discovered disk is missing from a snapshot only
      when `diskMounts` leaves it out. */
  lemma SnapshotDisksAreDiscovered(parts: seq<Partition>, diskMounts: Option<seq<string>>)
    ensures forall p :: p in UsableDisks(parts, diskMounts) ==> p in UsableDisks(parts, None)
    ensures forall p :: p in UsableDisks(parts, None) && p !in UsableDisks(parts, diskMounts) ==>
      !Allowed(diskMounts, p.mountpoint)
  {
  }
}
