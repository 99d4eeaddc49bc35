/**
 * `ChartWidget`: a live widget over a list of history points, drawn as a bar, area or
 * line chart whose x-axis is each point's formatted `timestamp`.
 */
module ChartWidget {
  import opened Wrappers
  import opened JsonData
  import opened Types

  /** The widget's initial `data`. */
  const InitialPoints: seq<Record> := []

  /** The three chart components. */
  datatype ChartKind = BarChart | AreaChart | LineChart

  datatype View =
    | Spinner
    | NoHistory(title: string, text: string)
    | Chart(title: string, kind: ChartKind, series: seq<string>, points: seq<Record>)

  /** The x-axis label of one point: the formatted `timestamp` when truthy, else `''`. */
  function TimeLabel(d: Record, format: string -> string): (r: string)
    ensures "timestamp" !in d ==> r == ""
    ensures "timestamp" in d && !JsTruthy(d["timestamp"]) ==> r == ""
    ensures "timestamp" in d && JsTruthy(d["timestamp"]) ==> r == format(JsString(d["timestamp"]))
  {
    match Field(JObj(d), "timestamp")
    case Some(ts) => if JsTruthy(ts) then format(JsString(ts)) else ""
    case None => ""
  }

  /**
   * `chartData`: the points in the same order, each with every field it had except that
   * `time` is set to its label. `format` stands for the locale time formatting.
   */
  function ChartData(data: seq<Record>, format: string -> string): (r: seq<Record>)
    ensures |r| == |data|
    ensures forall i :: 0 <= i < |data| ==>
      && r[i].Keys == data[i].Keys + {"time"}
      && r[i]["time"] == JStr(TimeLabel(data[i], format))
      && (forall k :: k in data[i] && k != "time" ==> r[i][k] == data[i][k])
  {
    seq(|data|, i requires 0 <= i < |data| => data[i]["time" := JStr(TimeLabel(data[i], format))])
  }

  /** `renderChart`'s choice of component. */
  function KindOf(chartType: Option<string>): (k: ChartKind)
    ensures k == BarChart <==> chartType == Some("bar")
    ensures k == AreaChart <==> chartType == Some("area")
    ensures k == LineChart <==> chartType != Some("bar") && chartType != Some("area")
  {
    if chartType == Some("bar") then BarChart
    else if chartType == Some("area") then AreaChart
    else LineChart
  }

  /** The fields plotted, in legend order. */
  function Series(kind: ChartKind): (r: seq<string>)
    ensures |r| >= 2 && r[..2] == ["online_count", "offline_count"]
    ensures "total_count" in r <==> kind == LineChart
  {
    if kind == LineChart then ["online_count", "offline_count", "total_count"]
    else ["online_count", "offline_count"]
  }

  /** The widget's render for a given state. */
  function Render(config: WidgetConfig, loading: bool, data: seq<Record>, format: string -> string): (v: View)
    ensures v.Spinner? <==> loading
    ensures v.NoHistory? <==> !loading && data == []
    ensures v.NoHistory? ==> v.text == "No history data yet. Waiting for scans..."
    ensures v.Chart? ==>
      && v.title == config.title
      && v.kind == KindOf(config.chartType)
      && v.series == Series(v.kind)
      && v.points == ChartData(data, format)
  {
    if loading then Spinner
    else
      var points := ChartData(data, format);
      if |points| == 0 then NoHistory(config.title, "No history data yet. Waiting for scans...")
      else
        var kind := KindOf(config.chartType);
        Chart(config.title, kind, Series(kind), points)
  }
}
