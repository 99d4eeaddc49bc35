/**
 * The LAN scanner plugin's tables (`models.py`) as records, and what one scan reports
 * per discovered host. Timestamps are instants on an integer clock.
 */
module LanModels {
  import opened Wrappers

  /** A row of `devices`; `mac` is unique in the table. */
  datatype Device = Device(
    mac: string,
    ip: string,
    hostname: Option<string>,
    vendor: Option<string>,
    status: string,
    deviceType: string,
    customName: Option<string>,
    firstSeen: int,
    lastSeen: int)

  /** A row of `scan_records`. */
  datatype ScanRecord = ScanRecord(
    id: nat,
    subnet: string,
    deviceCount: nat,
    newDevices: nat,
    offlineDevices: nat,
    scanMethod: string,
    durationMs: int,
    status: string,
    startedAt: int,
    completedAt: Option<int>)

  /** A row of `device_history`. */
  datatype HistoryPoint = HistoryPoint(
    scanId: nat,
    timestamp: int,
    onlineCount: nat,
    offlineCount: nat,
    totalCount: nat)

  /**
   * One host a scan reported: the dict `arp_scan`/`ping_sweep` build. The MAC is
   * `"unknown"` when the ARP cache had none.
   */
  datatype Found = Found(ip: string, mac: string, hostname: Option<string>, vendor: Option<string>)

  const Unknown: string := "unknown"
  const Online: string := "online"
  const Offline: string := "offline"

  /** Python truthiness of an optional string: present and non-empty. */
  predicate Truthy(s: Option<string>) {
    s.Some? && s.value != ""
  }
}
