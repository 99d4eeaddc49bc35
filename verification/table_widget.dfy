/**
 * `TableWidget`: a live widget whose data is a list of rows, shown through `DataTable`
 * under the widget's title, with a spinner until the first fetch settles.
 */
module TableWidget {
  import opened Wrappers
  import opened JsonData
  import opened Types

  /** The widget's initial `data`. */
  const InitialRows: seq<Record> := []

  datatype View =
    | Spinner
    | TableCard(title: string, columns: seq<WidgetColumn>, rows: seq<Record>)

  /** `config.columns || []`: a column list is an array, so it is used whenever present. */
  function ColumnsOf(config: WidgetConfig): (r: seq<WidgetColumn>)
    ensures config.columns.None? ==> r == []
    ensures config.columns.Some? ==> r == config.columns.value
  {
    config.columns.GetOr([])
  }

  /**
   * The widget's render for a given state. The component is a direct case split on its
   * state, so the contract states each case's view.
   */
  function Render(config: WidgetConfig, loading: bool, data: seq<Record>): (v: View)
    ensures v.Spinner? <==> loading
    ensures v.TableCard? ==> v.title == config.title && v.columns == ColumnsOf(config) && v.rows == data
  {
    if loading then Spinner else TableCard(config.title, ColumnsOf(config), data)
  }
}
