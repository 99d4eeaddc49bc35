/**
 * The LAN scanner's read endpoints (`routes.py`): each one shapes stored rows into a
 * response. The tables are sequences of rows in storage order; SQLite orders text by its
 * binary collation (character codes, lexicographically) and, in a descending order, puts
 * `NULL` last. Ties in an `ORDER BY` are left open by SQL; here they keep storage order.
 */
module LanRoutes {
  import opened Wrappers
  import opened StableSort
  import opened LanModels
  import opened Strings

  // ---------------------------------------------------------------------------------
  // Text order: SQLite's binary collation is `StrLe`

  /** `order_by(Device.ip_address)`. */
  function ByIp(): (Device, Device) -> bool {
    (x: Device, y: Device) => StrLe(x.ip, y.ip)
  }

  lemma ByIpPreorder()
    ensures TotalPreorder(ByIp())
  {
    forall x: Device, y: Device
      ensures StrLe(x.ip, y.ip) || StrLe(y.ip, x.ip)
    {
      StrLeTotal(x.ip, y.ip);
    }
    forall x: Device, y: Device, z: Device | StrLe(x.ip, y.ip) && StrLe(y.ip, z.ip)
      ensures StrLe(x.ip, z.ip)
    {
      StrLeTransitive(x.ip, y.ip, z.ip);
    }
  }

  // ---------------------------------------------------------------------------------
  // GET /devices

  /** The rows whose status is `status`, in storage order. */
  function OfStatus(devices: seq<Device>, status: string): (r: seq<Device>)
    ensures forall d :: multiset(r)[d] == if d.status == status then multiset(devices)[d] else 0
    ensures |r| <= |devices|
  {
    if devices == [] then []
    else
      var rest := devices[..|devices| - 1];
      var last := devices[|devices| - 1];
      assert devices == rest + [last];
      OfStatus(rest, status) + (if last.status == status then [last] else [])
  }

  /** `if status:` — only a non-empty status filters. */
  function Filtered(devices: seq<Device>, status: Option<string>): seq<Device> {
    if Truthy(status) then OfStatus(devices, status.value) else devices
  }

  /** `list_devices(status)`. */
  function ListDevices(devices: seq<Device>, status: Option<string>): seq<Device> {
    Sort(Filtered(devices, status), ByIp())
  }

  /**
   * The listing holds every stored row that passes the filter, once per occurrence and
   * nothing else, ordered by address; with no status or an empty one every row passes.
   */
  lemma ListDevicesSpec(devices: seq<Device>, status: Option<string>)
    ensures var r := ListDevices(devices, status);
      forall d :: multiset(r)[d] ==
        if !Truthy(status) || d.status == status.value then multiset(devices)[d] else 0
    ensures var r := ListDevices(devices, status);
      forall i, j :: 0 <= i < j < |r| ==> StrLe(r[i].ip, r[j].ip)
  {
    ByIpPreorder();
    SortPermutes(Filtered(devices, status), ByIp());
    SortSorted(Filtered(devices, status), ByIp());
  }

  // ---------------------------------------------------------------------------------
  // GET /devices/{ip_address}

  /** The reply of `get_device`: the row, a 404, or the error `scalar_one_or_none` raises on two rows. */
  datatype DeviceReply = DeviceFound(device: Device) | DeviceMissing | DeviceAmbiguous

  /** The HTTP status of each reply; the ambiguous case is an unhandled exception. */
  function StatusCode(r: DeviceReply): nat {
    match r
    case DeviceFound(_) => 200
    case DeviceMissing => 404
    case DeviceAmbiguous => 500
  }

  /** The rows with address `ip`, in storage order. */
  function WithIp(devices: seq<Device>, ip: string): (r: seq<Device>)
    ensures forall d :: d in r <==> d in devices && d.ip == ip
  {
    if devices == [] then []
    else (if devices[0].ip == ip then [devices[0]] else []) + WithIp(devices[1..], ip)
  }

  /** `get_device(ip_address)`. */
  function GetDevice(devices: seq<Device>, ip: string): (r: DeviceReply)
    ensures r == DeviceMissing <==> forall d :: d in devices ==> d.ip != ip
    ensures r.DeviceFound? ==> r.device in devices && r.device.ip == ip
    ensures r.DeviceFound? ==> forall d :: d in devices && d.ip == ip ==> d == r.device
    ensures StatusCode(r) == 404 <==> r == DeviceMissing
  {
    var rows := WithIp(devices, ip);
    if |rows| == 0 then DeviceMissing
    else if |rows| == 1 then
      assert rows[0] in rows;
      DeviceFound(rows[0])
    else
      assert rows[0] in rows;
      DeviceAmbiguous
  }

  // ---------------------------------------------------------------------------------
  // GET /summary

  /** `ScanSummary`. */
  datatype Summary = Summary(total: nat, online: nat, offline: int, lastScanAt: Option<int>, subnets: seq<string>)

  /** `order_by(desc(completed_at)).limit(1)`: the latest completion time; `NULL`s sort last. */
  function LastCompleted(scans: seq<ScanRecord>): (r: Option<int>)
    ensures r.None? <==> forall s :: s in scans ==> s.completedAt.None?
    ensures r.Some? ==> exists s :: s in scans && s.completedAt == r
    ensures r.Some? ==> forall s :: s in scans && s.completedAt.Some? ==> s.completedAt.value <= r.value
  {
    if scans == [] then None
    else
      var rest := LastCompleted(scans[1..]);
      var here := scans[0].completedAt;
      assert forall s :: s in scans ==> s == scans[0] || s in scans[1..];
      if here.None? then rest
      else if rest.None? || rest.value <= here.value then here
      else rest
  }

  /**
   * `get_summary`, where `detect_subnets()` gave `detected`. The detection runs outside any
   * `try`, so when it raises the request fails with 500.
   */
  function GetSummary(devices: seq<Device>, scans: seq<ScanRecord>, detected: Result<seq<string>, string>)
    : (r: Result<Summary, nat>)
    ensures r.Err? <==> detected.Err?
    ensures r.Err? ==> r.error == 500
    ensures r.Ok? ==> r.value.total == |devices| && r.value.total == r.value.online + r.value.offline
    ensures r.Ok? ==> r.value.lastScanAt == LastCompleted(scans) && r.value.subnets == detected.value
  {
    match detected
    case Err(_) => Err(500)
    case Ok(subnets) =>
      var total := |devices|;
      var online := |OfStatus(devices, Online)|;
      Ok(Summary(total, online, total - online, LastCompleted(scans), subnets))
  }

  /** The rows whose status is not `status`. */
  function NotOfStatus(devices: seq<Device>, status: string): seq<Device> {
    if devices == [] then []
    else
      var last := devices[|devices| - 1];
      NotOfStatus(devices[..|devices| - 1], status) + (if last.status != status then [last] else [])
  }

  lemma {:induction false} StatusSplit(devices: seq<Device>, status: string)
    ensures |OfStatus(devices, status)| + |NotOfStatus(devices, status)| == |devices|
  {
    if devices != [] {
      StatusSplit(devices[..|devices| - 1], status);
    }
  }

  /**
   * `offline_devices` is the total minus the online count, which is the number of devices
   * whose status is anything but online (not only those marked offline).
   */
  lemma SummaryOffline(devices: seq<Device>, scans: seq<ScanRecord>, detected: Result<seq<string>, string>)
    ensures detected.Ok? ==> GetSummary(devices, scans, detected).value.offline == |NotOfStatus(devices, Online)|
    ensures detected.Ok? ==> GetSummary(devices, scans, detected).value.offline >= 0
  {
    StatusSplit(devices, Online);
  }

  // ---------------------------------------------------------------------------------
  // GET /history and GET /scans

  /**
   * A `Query(default, ge=1, le=max)` integer: absent gives the default, a value outside
   * `[1, max]` is refused with 422.
   */
  function Limit(limit: Option<int>, default: nat, max: nat): (r: Result<nat, nat>)
    requires 1 <= default <= max
    ensures limit.None? ==> r == Ok(default)
    ensures limit.Some? ==> (r.Ok? <==> 1 <= limit.value <= max)
    ensures r.Ok? ==> 1 <= r.value <= max && (limit.Some? ==> r.value == limit.value)
    ensures r.Err? ==> r.error == 422
  {
    match limit
    case None => Ok(default)
    case Some(v) => if 1 <= v <= max then Ok(v) else Err(422)
  }

  /** Newest first on `key`. */
  function Desc<T>(key: T -> int): (T, T) -> bool {
    (a: T, b: T) => key(b) <= key(a)
  }

  lemma DescPreorder<T(!new)>(key: T -> int)
    ensures TotalPreorder(Desc(key))
  {
  }

  function Min(a: nat, b: nat): nat {
    if a <= b then a else b
  }

  /** `order_by(desc(key)).limit(k)`. */
  function Newest<T>(rows: seq<T>, key: T -> int, k: nat): seq<T> {
    var s := Sort(rows, Desc(key));
    SortPermutes(rows, Desc(key));
    assert |s| == |multiset(s)| == |rows|;
    s[..Min(k, |rows|)]
  }

  /** Sorting newest first: a permutation whose keys never increase. */
  lemma SortDesc<T(!new)>(rows: seq<T>, key: T -> int)
    ensures multiset(Sort(rows, Desc(key))) == multiset(rows)
    ensures |Sort(rows, Desc(key))| == |rows|
    ensures var s := Sort(rows, Desc(key));
      forall i, j :: 0 <= i < j < |s| ==> key(s[j]) <= key(s[i])
  {
    var s := Sort(rows, Desc(key));
    DescPreorder(key);
    SortSorted(rows, Desc(key));
    SortPermutes(rows, Desc(key));
    assert |s| == |multiset(s)| == |rows|;
  }

  /** The newest `k` rows: as many as there are, up to `k`, newest first. */
  lemma NewestOrder<T(!new)>(rows: seq<T>, key: T -> int, k: nat)
    ensures |Newest(rows, key, k)| == Min(k, |rows|)
    ensures var r := Newest(rows, key, k);
      forall i, j :: 0 <= i < j < |r| ==> key(r[j]) <= key(r[i])
  {
    SortDesc(rows, key);
  }

  /** A prefix of a sequence whose keys never increase holds the largest keys. */
  lemma PrefixNewest<T>(s: seq<T>, key: T -> int, m: nat)
    requires m <= |s|
    requires forall i, j :: 0 <= i < j < |s| ==> key(s[j]) <= key(s[i])
    ensures multiset(s[..m]) <= multiset(s)
    ensures forall x, y :: x in s[..m] && y in multiset(s) - multiset(s[..m]) ==> key(y) <= key(x)
  {
    var r := s[..m];
    assert s == r + s[m..];
    assert multiset(s) == multiset(r) + multiset(s[m..]);
    forall x, y | x in r && y in multiset(s) - multiset(r)
      ensures key(y) <= key(x)
    {
      assert y in multiset(s[m..]);
      var i :| 0 <= i < m && r[i] == x;
      var j :| 0 <= j < |s| - m && s[m..][j] == y;
      assert s[i] == x && s[m + j] == y;
    }
  }

  /** The newest `k` rows are drawn from the table, and no row left out is newer than a row returned. */
  lemma NewestSelection<T(!new)>(rows: seq<T>, key: T -> int, k: nat)
    ensures multiset(Newest(rows, key, k)) <= multiset(rows)
    ensures var r := Newest(rows, key, k);
      forall x, y :: x in r && y in multiset(rows) - multiset(r) ==> key(y) <= key(x)
  {
    SortDesc(rows, key);
    PrefixNewest(Sort(rows, Desc(key)), key, Min(k, |rows|));
  }

  /** A sequence newest first, turned around, is oldest first. */
  lemma ReverseAscending<T>(n: seq<T>, key: T -> int)
    requires forall i, j :: 0 <= i < j < |n| ==> key(n[j]) <= key(n[i])
    ensures var r := Reverse(n);
      forall i, j :: 0 <= i < j < |r| ==> key(r[i]) <= key(r[j])
  {
    var r := Reverse(n);
    forall i, j | 0 <= i < j < |r|
      ensures key(r[i]) <= key(r[j])
    {
      assert r[i] == n[|n| - 1 - i] && r[j] == n[|n| - 1 - j];
    }
  }

  function Timestamp(p: HistoryPoint): int {
    p.timestamp
  }

  function StartedAt(s: ScanRecord): int {
    s.startedAt
  }

  /** `get_history(limit)`: the newest points, returned oldest first. */
  function GetHistory(history: seq<HistoryPoint>, limit: Option<int>): (r: Result<seq<HistoryPoint>, nat>)
    ensures r.Err? <==> Limit(limit, 50, 500).Err?
  {
    match Limit(limit, 50, 500)
    case Ok(k) => Ok(Reverse(Newest(history, Timestamp, k)))
    case Err(code) => Err(code)
  }

  /** An accepted history request returns at most `limit` points (50 by default), in ascending time. */
  lemma GetHistoryOrder(history: seq<HistoryPoint>, limit: Option<int>)
    requires GetHistory(history, limit).Ok?
    ensures var r := GetHistory(history, limit).value;
      |r| == Min(Limit(limit, 50, 500).value, |history|)
    ensures var r := GetHistory(history, limit).value;
      forall i, j :: 0 <= i < j < |r| ==> r[i].timestamp <= r[j].timestamp
  {
    var k := Limit(limit, 50, 500).value;
    var n := Newest(history, Timestamp, k);
    NewestOrder(history, Timestamp, k);
    ReverseAscending(n, Timestamp);
    assert GetHistory(history, limit).value == Reverse(n);
  }

  /**
   * An accepted history request returns stored points, each as often as it is stored at
   * most, and no point left out is newer than a point returned.
   */
  lemma GetHistorySelection(history: seq<HistoryPoint>, limit: Option<int>)
    requires GetHistory(history, limit).Ok?
    ensures var r := GetHistory(history, limit).value;
      multiset(r) <= multiset(history)
    ensures var r := GetHistory(history, limit).value;
      forall p, q :: p in r && q in multiset(history) - multiset(r) ==> q.timestamp <= p.timestamp
  {
    var k := Limit(limit, 50, 500).value;
    var n := Newest(history, Timestamp, k);
    NewestSelection(history, Timestamp, k);
    ReverseMultiset(n);
    var r := Reverse(n);
    assert GetHistory(history, limit).value == r;
    forall p, q | p in r && q in multiset(history) - multiset(r)
      ensures q.timestamp <= p.timestamp
    {
      assert p in multiset(r);
      assert Timestamp(q) <= Timestamp(p);
    }
  }

  lemma {:induction false} ReverseMultiset<T>(s: seq<T>)
    ensures multiset(Reverse(s)) == multiset(s)
  {
    if s != [] {
      ReverseMultiset(s[1..]);
      assert s == [s[0]] + s[1..];
    }
  }

  /** `list_scans(limit)`: the newest scan records by start time, newest first. */
  function ListScans(scans: seq<ScanRecord>, limit: Option<int>): (r: Result<seq<ScanRecord>, nat>)
    ensures r.Err? <==> Limit(limit, 20, 100).Err?
  {
    match Limit(limit, 20, 100)
    case Ok(k) => Ok(Newest(scans, StartedAt, k))
    case Err(code) => Err(code)
  }

  /**
   * An accepted scan listing returns at most `limit` records (20 by default), newest start
   * first, and no record left out started later than a record returned.
   */
  lemma ListScansOrder(scans: seq<ScanRecord>, limit: Option<int>)
    requires ListScans(scans, limit).Ok?
    ensures var r := ListScans(scans, limit).value;
      |r| == Min(Limit(limit, 20, 100).value, |scans|)
    ensures var r := ListScans(scans, limit).value;
      forall i, j :: 0 <= i < j < |r| ==> r[j].startedAt <= r[i].startedAt
  {
    var k := Limit(limit, 20, 100).value;
    var r := Newest(scans, StartedAt, k);
    NewestOrder(scans, StartedAt, k);
    assert ListScans(scans, limit).value == r;
    forall i, j | 0 <= i < j < |r|
      ensures r[j].startedAt <= r[i].startedAt
    {
      assert StartedAt(r[j]) <= StartedAt(r[i]);
    }
  }

  /**
   * An accepted scan listing returns stored records, and no record left out started later
   * than a record returned.
   */
  lemma ListScansSelection(scans: seq<ScanRecord>, limit: Option<int>)
    requires ListScans(scans, limit).Ok?
    ensures var r := ListScans(scans, limit).value;
      multiset(r) <= multiset(scans)
    ensures var r := ListScans(scans, limit).value;
      forall s, t :: s in r && t in multiset(scans) - multiset(r) ==> t.startedAt <= s.startedAt
  {
    var k := Limit(limit, 20, 100).value;
    var r := Newest(scans, StartedAt, k);
    NewestSelection(scans, StartedAt, k);
    assert ListScans(scans, limit).value == r;
    forall s, t | s in r && t in multiset(scans) - multiset(r)
      ensures t.startedAt <= s.startedAt
    {
      assert StartedAt(t) <= StartedAt(s);
    }
  }
}
