/**
 * `run_scan`: one network scan reconciled into the device table. Every subnet is scanned
 * (a subnet whose scan raises is skipped); each reported host with a known MAC updates
 * its row or inserts a new one; every online device not reported is marked offline; a
 * scan record and a history point are appended; and the progress events are broadcast.
 *
 * The database session autoflushes, so a MAC reported twice in one scan finds the row the
 * first report inserted and updates it. The scans themselves, the clock and the
 * broadcaster are inputs and outputs: the per-subnet outcomes, `now`, the duration and
 * the completion time are parameters, and the broadcasts are returned in order.
 */
module ScanTasks {
  import opened Wrappers
  import opened Strings
  import opened LanModels

  /** What `scan_network(subnet)` did: returned `(devices, method)` (the method is `tag`), or raised. */
  datatype SubnetOutcome = Scanned(devices: seq<Found>, tag: string) | Raised

  /** A broadcast of `run_scan`, with the data it carries. */
  datatype Event =
    | ScanStarted
    | DeviceNew(found: Found)
    | DeviceOffline(ip: string, mac: string)
    | ScanComplete(totalDevices: nat, newDevices: nat, offlineDevices: nat, durationMs: int, subnets: seq<string>)

  type Table = map<string, Device>

  // ---------------------------------------------------------------------------------
  // Specification functions

  /** `all_devices`: the hosts of every subnet that did not raise, in subnet order. */
  function Collected(outcomes: seq<SubnetOutcome>): seq<Found> {
    if outcomes == [] then []
    else
      var last := outcomes[|outcomes| - 1];
      Collected(outcomes[..|outcomes| - 1]) + (if last.Scanned? then last.devices else [])
  }

  /** Some subnet was swept by ping. */
  predicate AnyPing(outcomes: seq<SubnetOutcome>) {
    if outcomes == [] then false
    else
      var last := outcomes[|outcomes| - 1];
      AnyPing(outcomes[..|outcomes| - 1]) || (last.Scanned? && last.tag == "ping")
  }

  /** `scan_method`: `"ping"` once any subnet was swept by ping, else `"arp"`. */
  function MethodOf(outcomes: seq<SubnetOutcome>): string {
    if AnyPing(outcomes) then "ping" else "arp"
  }

  /** The method recorded is `"ping"` exactly when some subnet's scan reported `"ping"`. */
  lemma {:induction false} MethodOfSpec(outcomes: seq<SubnetOutcome>)
    ensures MethodOf(outcomes) == "ping" <==>
      exists i :: 0 <= i < |outcomes| && outcomes[i].Scanned? && outcomes[i].tag == "ping"
    ensures MethodOf(outcomes) == "ping" || MethodOf(outcomes) == "arp"
  {
    if outcomes != [] {
      var prefix := outcomes[..|outcomes| - 1];
      MethodOfSpec(prefix);
      if exists i :: 0 <= i < |prefix| && prefix[i].Scanned? && prefix[i].tag == "ping" {
        var i :| 0 <= i < |prefix| && prefix[i].Scanned? && prefix[i].tag == "ping";
        assert outcomes[i] == prefix[i];
      }
      if exists i :: 0 <= i < |outcomes| && outcomes[i].Scanned? && outcomes[i].tag == "ping" {
        var i :| 0 <= i < |outcomes| && outcomes[i].Scanned? && outcomes[i].tag == "ping";
        if i < |prefix| {
          assert prefix[i] == outcomes[i];
        }
      }
    }
  }

  /** `found_macs`: the known MACs among the reported hosts. */
  function FoundMacs(fs: seq<Found>): set<string> {
    if fs == [] then {}
    else
      var f := fs[|fs| - 1];
      FoundMacs(fs[..|fs| - 1]) + (if f.mac != Unknown then {f.mac} else {})
  }

  /** A MAC is found exactly when some reported host has it and it is not `"unknown"`. */
  lemma {:induction false} FoundMacsSpec(fs: seq<Found>, m: string)
    ensures m in FoundMacs(fs) <==> m != Unknown && exists i :: 0 <= i < |fs| && fs[i].mac == m
  {
    if fs != [] {
      var prefix := fs[..|fs| - 1];
      FoundMacsSpec(prefix, m);
      if exists i :: 0 <= i < |prefix| && prefix[i].mac == m {
        var i :| 0 <= i < |prefix| && prefix[i].mac == m;
        assert fs[i] == prefix[i];
      }
      if exists i :: 0 <= i < |fs| && fs[i].mac == m {
        var i :| 0 <= i < |fs| && fs[i].mac == m;
        if i < |prefix| {
          assert prefix[i] == fs[i];
        }
      }
    }
  }

  /** `x or y` on optional strings. */
  function OrElse(x: Option<string>, y: Option<string>): (r: Option<string>)
    ensures Truthy(x) ==> r == x
    ensures !Truthy(x) ==> r == y
  {
    if Truthy(x) then x else y
  }

  /** The table after one reported host is processed. */
  function Upsert(d: Table, f: Found, now: int): (r: Table)
    ensures r.Keys == d.Keys + (if f.mac != Unknown then {f.mac} else {})
  {
    if f.mac == Unknown then d
    else if f.mac in d then
      var e := d[f.mac];
      d[f.mac := e.(ip := f.ip, hostname := OrElse(f.hostname, e.hostname),
                    vendor := OrElse(f.vendor, e.vendor), status := Online, lastSeen := now)]
    else
      d[f.mac := Device(f.mac, f.ip, f.hostname, f.vendor, Online, Unknown, None, now, now)]
  }

  /** The table after the reported hosts are processed in order. */
  function UpsertAll(d: Table, fs: seq<Found>, now: int): (r: Table)
    ensures r.Keys == d.Keys + FoundMacs(fs)
  {
    if fs == [] then d else Upsert(UpsertAll(d, fs[..|fs| - 1], now), fs[|fs| - 1], now)
  }

  /** The hosts that inserted a row, in report order: known MACs seen for the first time. */
  function NewOnes(d: Table, fs: seq<Found>): seq<Found> {
    if fs == [] then []
    else
      var f := fs[|fs| - 1];
      var prefix := fs[..|fs| - 1];
      NewOnes(d, prefix) + (if f.mac != Unknown && f.mac !in d && f.mac !in FoundMacs(prefix) then [f] else [])
  }

  /** The devices the offline pass changes: online, and not reported by this scan. */
  function Stale(d: Table, found: set<string>): set<string> {
    set m | m in d && d[m].status == Online && m !in found
  }

  /** The table after the offline pass. */
  function MarkOffline(d: Table, found: set<string>): Table {
    map m | m in d :: if m in Stale(d, found) then d[m].(status := Offline) else d[m]
  }

  /** The number of devices with the given status. */
  function CountStatus(d: Table, status: string): nat {
    |set m | m in d && d[m].status == status|
  }

  /** The history point recorded for scan `id` at `now` over the final table. */
  function HistoryOf(id: nat, now: int, d: Table): HistoryPoint {
    var online := CountStatus(d, Online);
    var offline := CountStatus(d, Offline);
    HistoryPoint(id, now, online, offline, online + offline)
  }

  /** The table after a whole scan. */
  function AfterScan(d: Table, fs: seq<Found>, now: int): Table {
    MarkOffline(UpsertAll(d, fs, now), FoundMacs(fs))
  }

  // ---------------------------------------------------------------------------------
  // Properties of the specification

  /**
   * Processing the reported hosts: the table gains exactly the new known MACs; every
   * reported device is online and last seen now, and keeps its first-seen time if it
   * existed (a new one was first seen now); every device not reported is untouched.
   */
  lemma UpsertAllSpec(d: Table, fs: seq<Found>, now: int)
    ensures forall m :: m in FoundMacs(fs) ==>
      UpsertAll(d, fs, now)[m].status == Online && UpsertAll(d, fs, now)[m].lastSeen == now
    ensures forall m :: m in d && m !in FoundMacs(fs) ==> UpsertAll(d, fs, now)[m] == d[m]
    ensures forall m :: m in d ==> UpsertAll(d, fs, now)[m].firstSeen == d[m].firstSeen
    ensures forall m :: m in FoundMacs(fs) && m !in d ==> UpsertAll(d, fs, now)[m].firstSeen == now
  {
    UpsertAllFound(d, fs, now);
    UpsertAllFirstSeen(d, fs, now);
    UpsertAllUntouched(d, fs, now);
  }

  /**
   * `hostname or existing.hostname`: a name or vendor once recorded is never lost; a later
   * report without one keeps what the table had.
   */
  lemma {:induction false} UpsertAllKeepsNames(d: Table, fs: seq<Found>, now: int)
    ensures forall m :: m in d && Truthy(d[m].hostname) ==> Truthy(UpsertAll(d, fs, now)[m].hostname)
    ensures forall m :: m in d && Truthy(d[m].vendor) ==> Truthy(UpsertAll(d, fs, now)[m].vendor)
    decreases |fs|
  {
    if fs != [] {
      UpsertAllKeepsNames(d, fs[..|fs| - 1], now);
    }
  }

  lemma {:induction false} UpsertAllFound(d: Table, fs: seq<Found>, now: int)
    ensures forall m :: m in FoundMacs(fs) ==>
      UpsertAll(d, fs, now)[m].status == Online && UpsertAll(d, fs, now)[m].lastSeen == now
    decreases |fs|
  {
    if fs != [] {
      UpsertAllFound(d, fs[..|fs| - 1], now);
    }
  }

  lemma {:induction false} UpsertAllFirstSeen(d: Table, fs: seq<Found>, now: int)
    ensures forall m :: m in d ==> UpsertAll(d, fs, now)[m].firstSeen == d[m].firstSeen
    ensures forall m :: m in FoundMacs(fs) && m !in d ==> UpsertAll(d, fs, now)[m].firstSeen == now
    decreases |fs|
  {
    if fs != [] {
      UpsertAllFirstSeen(d, fs[..|fs| - 1], now);
    }
  }

  lemma {:induction false} UpsertAllUntouched(d: Table, fs: seq<Found>, now: int)
    ensures forall m :: m in d && m !in FoundMacs(fs) ==> UpsertAll(d, fs, now)[m] == d[m]
    decreases |fs|
  {
    if fs != [] {
      UpsertAllUntouched(d, fs[..|fs| - 1], now);
    }
  }

  /**
   * `new_count`: one per known MAC that was not in the table before the scan, however
   * often the scan reported it.
   */
  lemma {:induction false} NewOnesCount(d: Table, fs: seq<Found>)
    ensures |NewOnes(d, fs)| == |FoundMacs(fs) - d.Keys|
    decreases |fs|
  {
    if fs != [] {
      var prefix := fs[..|fs| - 1];
      NewOnesCount(d, prefix);
      var f := fs[|fs| - 1];
      if f.mac != Unknown && f.mac !in d && f.mac !in FoundMacs(prefix) {
        NewOnesGrow(d, fs);
      } else {
        NewOnesSame(d, fs);
      }
    }
  }

  lemma {:induction false} NewOnesGrow(d: Table, fs: seq<Found>)
    requires fs != []
    requires var f := fs[|fs| - 1]; f.mac != Unknown && f.mac !in d && f.mac !in FoundMacs(fs[..|fs| - 1])
    requires |NewOnes(d, fs[..|fs| - 1])| == |FoundMacs(fs[..|fs| - 1]) - d.Keys|
    ensures |NewOnes(d, fs)| == |FoundMacs(fs) - d.Keys|
  {
    var prefix := fs[..|fs| - 1];
    var f := fs[|fs| - 1];
    DiffAddFresh(FoundMacs(prefix), d.Keys, f.mac);
  }

  lemma {:induction false} NewOnesSame(d: Table, fs: seq<Found>)
    requires fs != []
    requires var f := fs[|fs| - 1]; !(f.mac != Unknown && f.mac !in d && f.mac !in FoundMacs(fs[..|fs| - 1]))
    requires |NewOnes(d, fs[..|fs| - 1])| == |FoundMacs(fs[..|fs| - 1]) - d.Keys|
    ensures |NewOnes(d, fs)| == |FoundMacs(fs) - d.Keys|
  {
    var prefix := fs[..|fs| - 1];
    var f := fs[|fs| - 1];
    if f.mac != Unknown {
      DiffAddOld(FoundMacs(prefix), d.Keys, f.mac);
    }
  }

  /** Adding an element outside both sets grows the difference by one. */
  lemma DiffAddFresh<T>(a: set<T>, b: set<T>, x: T)
    requires x !in a && x !in b
    ensures |(a + {x}) - b| == |a - b| + 1
  {
    assert (a + {x}) - b == (a - b) + {x};
  }

  /** Adding an element already in one of the sets leaves the difference as it was. */
  lemma DiffAddOld<T>(a: set<T>, b: set<T>, x: T)
    requires x in a || x in b
    ensures (a + {x}) - b == a - b
  {
  }

  /** Each announced new host has a known MAC that was not in the table, and was reported. */
  lemma {:induction false} NewOnesMembers(d: Table, fs: seq<Found>)
    ensures forall f :: f in NewOnes(d, fs) ==> f in fs && f.mac != Unknown && f.mac !in d
    decreases |fs|
  {
    if fs != [] {
      var prefix := fs[..|fs| - 1];
      NewOnesMembers(d, prefix);
      assert forall f :: f in prefix ==> f in fs;
    }
  }

  /**
   * The offline pass changes only the status of the stale devices; every other device,
   * already-offline ones included, is untouched.
   */
  lemma MarkOfflineSpec(d: Table, found: set<string>)
    ensures MarkOffline(d, found).Keys == d.Keys
    ensures forall m :: m in Stale(d, found) ==> MarkOffline(d, found)[m] == d[m].(status := Offline)
    ensures forall m :: m in d && m !in Stale(d, found) ==> MarkOffline(d, found)[m] == d[m]
  {
  }

  /** The devices the offline pass finds are those that were online before the scan and were not reported. */
  lemma StaleAfterUpsert(d: Table, fs: seq<Found>, now: int)
    ensures Stale(UpsertAll(d, fs, now), FoundMacs(fs)) == Stale(d, FoundMacs(fs))
  {
    UpsertAllSpec(d, fs, now);
  }

  /**
   * After a scan a device is online exactly when this scan reported its MAC, so the
   * number of online devices is the number of distinct known MACs found.
   */
  lemma OnlineIffFound(d: Table, fs: seq<Found>, now: int)
    ensures forall m :: m in AfterScan(d, fs, now) ==>
      (AfterScan(d, fs, now)[m].status == Online <==> m in FoundMacs(fs))
    ensures CountStatus(AfterScan(d, fs, now), Online) == |FoundMacs(fs)|
  {
    var u := UpsertAll(d, fs, now);
    var a := AfterScan(d, fs, now);
    UpsertAllFound(d, fs, now);
    forall m | m in a
      ensures a[m].status == Online <==> m in FoundMacs(fs)
    {
      if m !in FoundMacs(fs) && u[m].status == Online {
        assert m in Stale(u, FoundMacs(fs));
      }
    }
    assert (set m | m in a && a[m].status == Online) == FoundMacs(fs);
  }

  /** Statuses stay within online/offline when they were so before. */
  predicate StatusesValid(d: Table) {
    forall m :: m in d ==> d[m].status == Online || d[m].status == Offline
  }

  /** With every status online or offline, the two counts add up to the number of devices. */
  lemma PartitionCount(a: Table)
    requires StatusesValid(a)
    ensures CountStatus(a, Online) + CountStatus(a, Offline) == |a|
  {
    var on := set m | m in a && a[m].status == Online;
    var off := set m | m in a && a[m].status == Offline;
    assert on * off == {};
    assert on + off == a.Keys;
    assert |on + off| == |on| + |off|;
  }

  /**
   * The history point's total, online + offline, counts every device when every status is
   * online or offline; a scan keeps that so.
   */
  lemma HistoryTotal(d: Table, fs: seq<Found>, now: int)
    requires StatusesValid(d)
    ensures StatusesValid(AfterScan(d, fs, now))
    ensures CountStatus(AfterScan(d, fs, now), Online) + CountStatus(AfterScan(d, fs, now), Offline)
      == |AfterScan(d, fs, now)|
  {
    var u := UpsertAll(d, fs, now);
    UpsertAllSpec(d, fs, now);
    assert StatusesValid(u);
    MarkOfflineSpec(u, FoundMacs(fs));
    PartitionCount(AfterScan(d, fs, now));
  }

  // ---------------------------------------------------------------------------------
  // The scan

  /** The first loop of `run_scan`: gather every subnet's hosts and the scan method. */
  method CollectResults(outcomes: seq<SubnetOutcome>) returns (all: seq<Found>, scanMethod: string)
    ensures all == Collected(outcomes)
    ensures scanMethod == MethodOf(outcomes)
  {
    all := [];
    scanMethod := "arp";
    for i := 0 to |outcomes|
      invariant all == Collected(outcomes[..i])
      invariant scanMethod == MethodOf(outcomes[..i])
    {
      assert outcomes[..i + 1][..i] == outcomes[..i];
      match outcomes[i] {
        case Scanned(devices, tag) =>
          all := all + devices;
          if tag == "ping" {
            scanMethod := "ping";
          }
          assert outcomes[..i + 1][i] == outcomes[i];
        case Raised =>
      }
    }
    assert outcomes[..|outcomes|] == outcomes;
  }

  /** How the scan's specification grows by one reported host. */
  lemma ReconcileStep(d0: Table, all: seq<Found>, i: nat, now: int)
    requires i < |all|
    ensures var f := all[i];
      && UpsertAll(d0, all[..i + 1], now) == Upsert(UpsertAll(d0, all[..i], now), f, now)
      && FoundMacs(all[..i + 1]) == FoundMacs(all[..i]) + (if f.mac != Unknown then {f.mac} else {})
      && NewOnes(d0, all[..i + 1]) == NewOnes(d0, all[..i])
           + (if f.mac != Unknown && f.mac !in UpsertAll(d0, all[..i], now) then [f] else [])
  {
    assert all[..i + 1][..i] == all[..i];
  }

  /** One `device_new` broadcast per host, in order. */
  function AnnounceNew(fs: seq<Found>): (r: seq<Event>)
    ensures |r| == |fs|
    ensures forall i :: 0 <= i < |fs| ==> r[i] == DeviceNew(fs[i])
  {
    seq(|fs|, i requires 0 <= i < |fs| => DeviceNew(fs[i]))
  }

  lemma AnnounceNewSnoc(fs: seq<Found>, f: Found)
    ensures AnnounceNew(fs + [f]) == AnnounceNew(fs) + [DeviceNew(f)]
  {
  }

  /**
   * `events` are the offline pass's broadcasts for table `d`: one per device the pass takes
   * offline, each naming that device's MAC and address.
   */
  predicate AnnouncesOffline(events: seq<Event>, d: Table, found: set<string>) {
    Announces(events, d, Stale(d, found))
  }

  /** `events` are one `device_offline` broadcast for each device of `macs`, with its address in `d`. */
  predicate Announces(events: seq<Event>, d: Table, macs: set<string>) {
    && |events| == |macs|
    && (forall e :: e in events ==> e.DeviceOffline? && e.mac in macs && e.mac in d && e.ip == d[e.mac].ip)
    && (forall m :: m in macs ==> m in d && DeviceOffline(d[m].ip, m) in events)
  }

  lemma AnnouncesStep(events: seq<Event>, d: Table, macs: set<string>, m: string)
    requires Announces(events, d, macs) && m in d && m !in macs
    ensures Announces(events + [DeviceOffline(d[m].ip, m)], d, macs + {m})
  {
  }

  /**
   * The devices the offline pass announces are the same, with the same addresses, whether
   * read from the table before the scan or after the reported hosts were processed.
   */
  lemma AnnouncesOfflineAfterUpsert(events: seq<Event>, d: Table, fs: seq<Found>, now: int)
    requires AnnouncesOffline(events, UpsertAll(d, fs, now), FoundMacs(fs))
    ensures AnnouncesOffline(events, d, FoundMacs(fs))
  {
    UpsertAllSpec(d, fs, now);
    StaleAfterUpsert(d, fs, now);
  }

  /**
   * The broadcasts of one scan: `scan_started`, one `device_new` per inserted device in
   * report order, the offline pass's broadcasts, and `scan_complete` with the counts.
   */
  predicate ScanBroadcasts(events: seq<Event>, d: Table, all: seq<Found>, durationMs: int, subnets: seq<string>) {
    var n := |NewOnes(d, all)|;
    && 2 + n <= |events|
    && events[0] == ScanStarted
    && events[1..1 + n] == AnnounceNew(NewOnes(d, all))
    && AnnouncesOffline(events[1 + n..|events| - 1], d, FoundMacs(all))
    && events[|events| - 1] == ScanComplete(|all|, n, |events| - 2 - n, durationMs, subnets)
  }

  lemma ScanBroadcastsIntro(newEvents: seq<Event>, offEvents: seq<Event>, d: Table, all: seq<Found>,
                            durationMs: int, subnets: seq<string>)
    requires newEvents == AnnounceNew(NewOnes(d, all))
    requires AnnouncesOffline(offEvents, d, FoundMacs(all))
    ensures ScanBroadcasts([ScanStarted] + newEvents + offEvents
                             + [ScanComplete(|all|, |newEvents|, |offEvents|, durationMs, subnets)],
                           d, all, durationMs, subnets)
  {
    var events := [ScanStarted] + newEvents + offEvents
      + [ScanComplete(|all|, |newEvents|, |offEvents|, durationMs, subnets)];
    assert events[1..1 + |newEvents|] == newEvents;
    assert events[1 + |newEvents|..|events| - 1] == offEvents;
  }

  /** `d` is `d0` with exactly the devices in `done` taken offline. */
  predicate PartlyOffline(d0: Table, d: Table, done: set<string>) {
    && d.Keys == d0.Keys
    && (forall m :: m in done ==> m in d0 && d[m] == d0[m].(status := Offline))
    && (forall m :: m in d0 && m !in done ==> d[m] == d0[m])
  }

  /**
   * The offline pass's progress: `remaining` holds devices that were online and are still to
   * be visited, and `done` the stale devices already visited.
   */
  ghost predicate Pending(d0: Table, found: set<string>, remaining: set<string>, done: set<string>) {
    && (forall m :: m in remaining ==> m in d0 && d0[m].status == Online)
    && (forall m :: m in done <==> m in Stale(d0, found) && m !in remaining)
  }

  lemma PendingStep(d0: Table, found: set<string>, remaining: set<string>, done: set<string>, m: string)
    requires Pending(d0, found, remaining, done) && m in remaining
    ensures m in d0 && m !in done
    ensures m !in found ==> Pending(d0, found, remaining - {m}, done + {m})
    ensures m in found ==> Pending(d0, found, remaining - {m}, done)
  {
  }

  lemma PendingDone(d0: Table, found: set<string>, done: set<string>)
    requires Pending(d0, found, {}, done)
    ensures done == Stale(d0, found)
  {
  }

  lemma PartlyOfflineStep(d0: Table, d: Table, done: set<string>, m: string)
    requires PartlyOffline(d0, d, done) && m in d0 && m !in done
    ensures PartlyOffline(d0, d[m := d[m].(status := Offline)], done + {m})
  {
  }

  /** Once every stale device is taken offline, the table is the offline pass's result. */
  lemma PartlyOfflineDone(d0: Table, d: Table, found: set<string>)
    requires PartlyOffline(d0, d, Stale(d0, found))
    ensures d == MarkOffline(d0, found)
  {
  }

  class ScanDb {
    /** `devices`, keyed by MAC. */
    var devices: Table
    /** `scan_records`, in insertion order; ids are 1, 2, ... */
    var scans: seq<ScanRecord>
    /** `device_history`, in insertion order. */
    var history: seq<HistoryPoint>

    constructor (devices: Table, scans: seq<ScanRecord>, history: seq<HistoryPoint>)
      ensures this.devices == devices && this.scans == scans && this.history == history
    {
      this.devices := devices;
      this.scans := scans;
      this.history := history;
    }

    /**
     * The second loop: every reported host with a known MAC updates or inserts its row;
     * each insertion is counted and announced.
     */
    method Reconcile(all: seq<Found>, now: int) returns (newCount: nat, newEvents: seq<Event>, found: set<string>)
      modifies this
      ensures devices == UpsertAll(old(devices), all, now)
      ensures found == FoundMacs(all)
      ensures newEvents == AnnounceNew(NewOnes(old(devices), all))
      ensures newCount == |NewOnes(old(devices), all)|
      ensures scans == old(scans) && history == old(history)
    {
      ghost var d0 := devices;
      found := {};
      newCount := 0;
      newEvents := [];
      for i := 0 to |all|
        invariant devices == UpsertAll(d0, all[..i], now)
        invariant found == FoundMacs(all[..i])
        invariant newEvents == AnnounceNew(NewOnes(d0, all[..i]))
        invariant newCount == |NewOnes(d0, all[..i])|
        invariant scans == old(scans) && history == old(history)
      {
        var f := all[i];
        ReconcileStep(d0, all, i, now);
        if f.mac == Unknown {
          continue;
        }
        found := found + {f.mac};
        if f.mac in devices {
          var e := devices[f.mac];
          devices := devices[f.mac := e.(ip := f.ip, hostname := OrElse(f.hostname, e.hostname),
                                         vendor := OrElse(f.vendor, e.vendor), status := Online, lastSeen := now)];
        } else {
          devices := devices[f.mac := Device(f.mac, f.ip, f.hostname, f.vendor, Online, Unknown, None, now, now)];
          AnnounceNewSnoc(NewOnes(d0, all[..i]), f);
          newCount := newCount + 1;
          newEvents := newEvents + [DeviceNew(f)];
        }
      }
      assert all[..|all|] == all;
    }

    /**
     * The offline pass: each device that is online and was not reported becomes offline,
     * once, and is announced; the order of the pass is the database's and is left open.
     */
    method MarkUnseenOffline(found: set<string>) returns (offlineCount: nat, events: seq<Event>)
      modifies this
      ensures devices == MarkOffline(old(devices), found)
      ensures offlineCount == |Stale(old(devices), found)|
      ensures AnnouncesOffline(events, old(devices), found)
      ensures scans == old(scans) && history == old(history)
    {
      ghost var d0 := devices;
      ghost var done: set<string> := {};
      var remaining := set m | m in devices && devices[m].status == Online;
      offlineCount := 0;
      events := [];
      while remaining != {}
        invariant Pending(d0, found, remaining, done)
        invariant PartlyOffline(d0, devices, done)
        invariant offlineCount == |done|
        invariant Announces(events, d0, done)
        invariant scans == old(scans) && history == old(history)
        decreases |remaining|
      {
        var m :| m in remaining;
        PendingStep(d0, found, remaining, done, m);
        if m !in found {
          PartlyOfflineStep(d0, devices, done, m);
          AnnouncesStep(events, d0, done, m);
          var dev := devices[m];
          devices := devices[m := dev.(status := Offline)];
          offlineCount := offlineCount + 1;
          events := events + [DeviceOffline(dev.ip, m)];
          done := done + {m};
        }
        remaining := remaining - {m};
      }
      PendingDone(d0, found, done);
      PartlyOfflineDone(d0, devices, found);
    }

    /**
     * `run_scan` at time `now`, where `detect_subnets()` gave `detected` and the scans of the
     * detected subnets had the given outcomes. `scan_started` is broadcast first. When the
     * detection raises, that exception leaves `run_scan` and nothing is written. Otherwise
     * one `device_new` follows per inserted device in report order, then one
     * `device_offline` per device the scan took offline, and `scan_complete` last; the table
     * becomes the reconciled table, and one scan record and one history point are appended.
     */
    method RunScan(detected: Result<seq<string>, string>, outcomes: seq<SubnetOutcome>, now: int, durationMs: int,
                   completedAt: int)
      returns (events: seq<Event>, escaped: Option<string>)
      requires detected.Ok? ==> |outcomes| == |detected.value|
      modifies this
      ensures escaped.Some? <==> detected.Err?
      ensures detected.Err? ==> escaped == Some(detected.error) && events == [ScanStarted]
      ensures detected.Err? ==> devices == old(devices) && scans == old(scans) && history == old(history)
      ensures detected.Ok? ==> devices == AfterScan(old(devices), Collected(outcomes), now)
      ensures detected.Ok? ==> ScanBroadcasts(events, old(devices), Collected(outcomes), durationMs, detected.value)
      ensures detected.Ok? ==>
        scans == old(scans) + [ScanRecord(|old(scans)| + 1, Join(detected.value, ","), |Collected(outcomes)|,
                                          |NewOnes(old(devices), Collected(outcomes))|,
                                          |Stale(old(devices), FoundMacs(Collected(outcomes)))|,
                                          MethodOf(outcomes), durationMs, "completed", now, Some(completedAt))]
      ensures detected.Ok? ==> history == old(history) + [HistoryOf(|old(scans)| + 1, now, devices)]
    {
      if detected.Err? {
        events := [ScanStarted];
        escaped := Some(detected.error);
        return;
      }
      escaped := None;
      var subnets := detected.value;
      ghost var d0 := devices;
      var all, scanMethod := CollectResults(outcomes);
      var newCount, newEvents, found := Reconcile(all, now);
      var offlineCount, offEvents := MarkUnseenOffline(found);
      StaleAfterUpsert(d0, all, now);
      AnnouncesOfflineAfterUpsert(offEvents, d0, all, now);
      var id := |scans| + 1;
      scans := scans + [ScanRecord(id, Join(subnets, ","), |all|, newCount, offlineCount,
                                   scanMethod, durationMs, "completed", now, Some(completedAt))];
      history := history + [HistoryOf(id, now, devices)];
      events := [ScanStarted] + newEvents + offEvents
        + [ScanComplete(|all|, newCount, offlineCount, durationMs, subnets)];
      ScanBroadcastsIntro(newEvents, offEvents, d0, all, durationMs, subnets);
    }
  }
}
