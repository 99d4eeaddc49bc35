/** The manifest records the server sends to the browser (`types.ts`). */
module Types {
  import opened Wrappers

  /** A table column; `caption` is the column's `label`. */
  datatype WidgetColumn = WidgetColumn(key: string, caption: string, sortable: Option<bool>)

  /**
   * One widget instance. `widgetType` is a free string: the manifest is JSON, so kinds
   * outside `table`/`chart`/`status` can arrive.
   */
  datatype WidgetConfig = WidgetConfig(
    widgetId: string,
    widgetType: string,
    title: string,
    dataEndpoint: string,
    refreshEvent: string,
    columns: Option<seq<WidgetColumn>>,
    chartType: Option<string>)

  datatype PluginFrontend = PluginFrontend(
    icon: string,
    sidebarLabel: string,
    sidebarOrder: int,
    routePath: string,
    widgets: seq<WidgetConfig>)

  datatype PluginManifest = PluginManifest(
    name: string,
    displayName: string,
    description: string,
    version: string,
    enabled: bool,
    apiPrefix: string,
    frontend: PluginFrontend)
}
