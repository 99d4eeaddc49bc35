/**
 * `StatusWidget`: a live widget over the device summary, shown as three count tiles and,
 * when a scan has been recorded, a line with its time and the scanned subnets.
 */
module StatusWidget {
  import opened Wrappers
  import opened Strings
  import opened Types

  /** The summary the widget fetches (`SummaryData`). */
  datatype SummaryData = SummaryData(
    totalDevices: int,
    onlineDevices: int,
    offlineDevices: int,
    lastScanAt: Option<string>,
    subnets: seq<string>)

  /** The widget's initial `data`: `null`. */
  const InitialSummary: Option<SummaryData> := None

  datatype Tile = Tile(caption: string, value: int)

  /** The line under the tiles: the formatted scan time and the joined subnets. */
  datatype LastScan = LastScan(when: string, subnets: string)

  datatype View =
    | Spinner
    | Nothing
    | Tiles(tiles: seq<Tile>, lastScan: Option<LastScan>)

  /** `stats`: total, online and offline, in that order. */
  function TilesOf(d: SummaryData): (r: seq<Tile>)
    ensures |r| == 3
    ensures r[0] == Tile("Total Devices", d.totalDevices)
    ensures r[1] == Tile("Online", d.onlineDevices)
    ensures r[2] == Tile("Offline", d.offlineDevices)
  {
    [Tile("Total Devices", d.totalDevices), Tile("Online", d.onlineDevices), Tile("Offline", d.offlineDevices)]
  }

  /**
   * `data.last_scan_at && ...`: the line exists only for a non-empty timestamp; `format`
   * stands for the locale date formatting.
   */
  function LastScanOf(d: SummaryData, format: string -> string): (r: Option<LastScan>)
    ensures r.Some? <==> d.lastScanAt.Some? && d.lastScanAt.value != ""
    ensures r.Some? ==> r.value.when == format(d.lastScanAt.value) && r.value.subnets == Join(d.subnets, ", ")
  {
    match d.lastScanAt
    case Some(t) => if t != "" then Some(LastScan(format(t), Join(d.subnets, ", "))) else None
    case None => None
  }

  /**
   * The widget's render for a given state: after loading, no data renders nothing. The
   * component is a direct case split on its state, so the contract states each case's view.
   */
  function Render(loading: bool, data: Option<SummaryData>, format: string -> string): (v: View)
    ensures v.Spinner? <==> loading
    ensures v.Nothing? <==> !loading && data.None?
    ensures v.Tiles? ==> v.tiles == TilesOf(data.value) && v.lastScan == LastScanOf(data.value, format)
  {
    if loading then Spinner
    else match data
      case None => Nothing
      case Some(d) => Tiles(TilesOf(d), LastScanOf(d, format))
  }
}
