/**
 * `WidgetRenderer`: resolves a widget's `widget_type` through the fixed kind table and
 * lays the widget out in the dashboard grid, or shows a placeholder for unknown kinds.
 */
module WidgetRenderer {
  import opened Wrappers
  import opened Types

  /** The three widget components. */
  datatype WidgetKind = TableWidget | ChartWidget | StatusWidget

  /** `WIDGET_MAP` (own keys only). */
  const WidgetMap: map<string, WidgetKind> :=
    map["table" := TableWidget, "chart" := ChartWidget, "status" := StatusWidget]

  /**
   * What the renderer returns: the yellow placeholder, or the resolved component inside an
   * `ErrorBoundary`, in a cell with the given grid classes, receiving `config`.
   */
  datatype Rendered =
    | Placeholder(text: string)
    | Bounded(classes: seq<string>, kind: WidgetKind, config: WidgetConfig)

  /** `WIDGET_MAP[widget_type]`. */
  function Resolve(widgetType: string): (r: Option<WidgetKind>)
    ensures r.Some? <==> widgetType == "table" || widgetType == "chart" || widgetType == "status"
    ensures r == Some(TableWidget) <==> widgetType == "table"
    ensures r == Some(ChartWidget) <==> widgetType == "chart"
    ensures r == Some(StatusWidget) <==> widgetType == "status"
  {
    if widgetType in WidgetMap then Some(WidgetMap[widgetType]) else None
  }

  /** The class tokens `clsx(...)` gives the widget's grid cell. */
  function SpanClasses(widgetType: string): (r: seq<string>)
    ensures "sm:col-span-2" in r <==> widgetType == "table" || widgetType == "chart" || widgetType == "status"
    ensures "lg:col-span-3" in r <==> widgetType == "table" || widgetType == "status"
    ensures forall c :: c in r ==> c == "sm:col-span-2" || c == "lg:col-span-3"
  {
    (if widgetType == "table" then ["sm:col-span-2", "lg:col-span-3"] else [])
    + (if widgetType == "chart" then ["sm:col-span-2"] else [])
    + (if widgetType == "status" then ["sm:col-span-2", "lg:col-span-3"] else [])
  }

  /** The renderer for one widget. */
  function Render(widget: WidgetConfig): (r: Rendered)
    ensures r.Placeholder? <==> Resolve(widget.widgetType).None?
    ensures r.Placeholder? ==> r.text == "Unknown widget type: " + widget.widgetType
    ensures r.Bounded? ==>
      && Some(r.kind) == Resolve(widget.widgetType)
      && r.config == widget
      && r.classes == SpanClasses(widget.widgetType)
  {
    match Resolve(widget.widgetType)
    case None => Placeholder("Unknown widget type: " + widget.widgetType)
    case Some(kind) => Bounded(SpanClasses(widget.widgetType), kind, widget)
  }
}
