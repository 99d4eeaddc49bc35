/**
 * The dashboard page: the overview shows the status widgets of every loaded plugin, or an
 * empty state when there are none.
 */
module Dashboard {
  import opened Types
  import opened WidgetRenderer

  /** `widgets.filter((w) => w.widget_type === 'status')`. */
  function StatusWidgets(widgets: seq<WidgetConfig>): (r: seq<WidgetConfig>)
    ensures |r| <= |widgets|
    ensures forall w :: w in r <==> w in widgets && w.widgetType == "status"
  {
    if widgets == [] then []
    else (if widgets[0].widgetType == "status" then [widgets[0]] else []) + StatusWidgets(widgets[1..])
  }

  /**
   * `filter` keeps the order of the widgets: filtering `a + b` filters `a`, then `b`.
   * Together with `StatusWidgetsSingle` this determines the result.
   */
  lemma {:induction false} StatusWidgetsAppend(a: seq<WidgetConfig>, b: seq<WidgetConfig>)
    ensures StatusWidgets(a + b) == StatusWidgets(a) + StatusWidgets(b)
  {
    if a == [] {
      assert a + b == b;
    } else {
      var head := if a[0].widgetType == "status" then [a[0]] else [];
      calc {
        StatusWidgets(a + b);
        { assert (a + b)[0] == a[0]; assert (a + b)[1..] == a[1..] + b; }
        head + StatusWidgets(a[1..] + b);
        { StatusWidgetsAppend(a[1..], b); }
        head + (StatusWidgets(a[1..]) + StatusWidgets(b));
        (head + StatusWidgets(a[1..])) + StatusWidgets(b);
        StatusWidgets(a) + StatusWidgets(b);
      }
    }
  }

  /** One widget is kept exactly when it is a status widget. */
  lemma StatusWidgetsSingle(w: WidgetConfig)
    ensures StatusWidgets([w]) == if w.widgetType == "status" then [w] else []
  {
    assert [w][1..] == [];
  }

  /** `filter` keeps duplicates: a status widget occurs as often as in the input. */
  lemma {:induction false} StatusWidgetsCount(widgets: seq<WidgetConfig>, w: WidgetConfig)
    ensures multiset(StatusWidgets(widgets))[w] == if w.widgetType == "status" then multiset(widgets)[w] else 0
  {
    if widgets != [] {
      StatusWidgetsCount(widgets[1..], w);
      assert widgets == [widgets[0]] + widgets[1..];
    }
  }

  /** `plugins.flatMap((p) => p.frontend.widgets.filter(...))`. */
  function SummaryWidgets(plugins: seq<PluginManifest>): seq<WidgetConfig> {
    if plugins == [] then [] else StatusWidgets(plugins[0].frontend.widgets) + SummaryWidgets(plugins[1..])
  }

  /** The overview's body: the empty state, or one keyed renderer per summary widget. */
  datatype View =
    | EmptyState(headline: string, hint: string)
    | Grid(cells: seq<Cell>)

  /** `<WidgetRenderer key={widget.widget_id} widget={widget} />`. */
  datatype Cell = Cell(key: string, rendered: Rendered)

  function Page(plugins: seq<PluginManifest>): (v: View)
    ensures v.EmptyState? <==> SummaryWidgets(plugins) == []
    ensures v.EmptyState? ==> v.headline == "No plugins loaded"
    ensures v.Grid? ==>
      && |v.cells| == |SummaryWidgets(plugins)|
      && forall i :: 0 <= i < |v.cells| ==>
        v.cells[i] == Cell(SummaryWidgets(plugins)[i].widgetId, Render(SummaryWidgets(plugins)[i]))
  {
    var ws := SummaryWidgets(plugins);
    if ws == [] then EmptyState("No plugins loaded", "Add plugins to backend/plugins/ and restart the server")
    else Grid(seq(|ws|, i requires 0 <= i < |ws| => Cell(ws[i].widgetId, Render(ws[i]))))
  }

  /**
   * The summary holds exactly the status widgets of the plugins: every one of them, not
   * only the first of each plugin.
   */
  lemma {:induction false} SummaryMembers(plugins: seq<PluginManifest>, w: WidgetConfig)
    ensures w in SummaryWidgets(plugins) <==>
      w.widgetType == "status" && exists i :: 0 <= i < |plugins| && w in plugins[i].frontend.widgets
  {
    if plugins != [] {
      SummaryMembers(plugins[1..], w);
      if w.widgetType == "status" && w !in plugins[0].frontend.widgets
        && (exists i :: 0 <= i < |plugins| && w in plugins[i].frontend.widgets)
      {
        var i :| 0 <= i < |plugins| && w in plugins[i].frontend.widgets;
        assert w in plugins[1..][i - 1].frontend.widgets;
      }
      if exists i :: 0 <= i < |plugins[1..]| && w in plugins[1..][i].frontend.widgets {
        var i :| 0 <= i < |plugins[1..]| && w in plugins[1..][i].frontend.widgets;
        assert w in plugins[i + 1].frontend.widgets;
      }
    }
  }

  /**
   * The summary follows plugin order and, within a plugin, widget order: the list for
   * `a + b` is the list for `a` followed by the list for `b`.
   */
  lemma {:induction false} SummaryAppend(a: seq<PluginManifest>, b: seq<PluginManifest>)
    ensures SummaryWidgets(a + b) == SummaryWidgets(a) + SummaryWidgets(b)
  {
    if a == [] {
      assert a + b == b;
    } else {
      assert (a + b)[0] == a[0];
      assert (a + b)[1..] == a[1..] + b;
      SummaryAppend(a[1..], b);
    }
  }

  /** For one plugin the summary is its status widgets, in their manifest order. */
  lemma SummaryOfOne(p: PluginManifest)
    ensures SummaryWidgets([p]) == StatusWidgets(p.frontend.widgets)
  {
    assert [p][1..] == [];
  }
}
