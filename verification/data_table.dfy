/**
 * `DataTable`: rows shown as a table (or as cards on a narrow window), optionally sorted
 * on one column whose direction a second click on its header reverses. Cell order uses
 * the locale string comparison, given here as a total preorder `cmp` on strings
 * ("`a.localeCompare(b) <= 0`").
 */
module DataTable {
  import opened Wrappers
  import opened JsonData
  import opened Types
  import opened StableSort
  import opened UseResponsive

  /** The sort state: `sortKey` and `sortAsc`. */
  datatype SortState = SortState(key: Option<string>, asc: bool)

  const Unsorted: SortState := SortState(None, true)

  /** `handleSort(key)`: the current key flips direction; another key starts ascending. */
  function AfterSort(st: SortState, key: string): (r: SortState)
    ensures r.key == Some(key)
    ensures st.key == Some(key) ==> r.asc == !st.asc
    ensures st.key != Some(key) ==> r.asc
  {
    if st.key == Some(key) then SortState(st.key, !st.asc) else SortState(Some(key), true)
  }

  /**
   * Two clicks on the same header: back to where it was if that column was already the
   * sort column, otherwise that column descending.
   */
  lemma SortTwice(st: SortState, key: string)
    ensures AfterSort(AfterSort(st, key), key) ==
      if st.key == Some(key) then st else SortState(Some(key), false)
  {
  }

  /** `onClick={() => col.sortable && handleSort(col.key)}`. */
  function AfterHeaderClick(st: SortState, col: WidgetColumn): (r: SortState)
    ensures col.sortable == Some(true) ==> r == AfterSort(st, col.key)
    ensures col.sortable != Some(true) ==> r == st
  {
    if col.sortable == Some(true) then AfterSort(st, col.key) else st
  }

  /** The table's sort state as a component: `useState(null)` and `useState(true)`. */
  class SortControl {
    var state: SortState

    constructor ()
      ensures state == Unsorted
    {
      state := Unsorted;
    }

    method HandleSort(key: string)
      modifies this
      ensures state == AfterSort(old(state), key)
    {
      if state.key == Some(key) {
        state := state.(asc := !state.asc);
      } else {
        state := SortState(Some(key), true);
      }
    }

    method ClickHeader(col: WidgetColumn)
      modifies this
      ensures state == AfterHeaderClick(old(state), col)
    {
      if col.sortable == Some(true) {
        HandleSort(col.key);
      }
    }
  }

  /** `String(row[key] ?? '')`: a missing or `null` cell reads as the empty string. */
  function CellText(row: Record, key: string): (r: string)
    ensures key !in row ==> r == ""
    ensures key in row && row[key] == JNull ==> r == ""
    ensures key in row && row[key].JStr? ==> r == row[key].s
  {
    if key in row && !row[key].JNull? then JsString(row[key]) else ""
  }

  /** The ascending comparator on column `key`, as "not after". */
  function ByColumn(key: string, cmp: (string, string) -> bool): (Record, Record) -> bool {
    (a: Record, b: Record) => cmp(CellText(a, key), CellText(b, key))
  }

  /** The comparator in use: ascending, or with the arguments swapped for descending. */
  function Comparator(key: string, asc: bool, cmp: (string, string) -> bool): (Record, Record) -> bool {
    if asc then ByColumn(key, cmp) else Flip(ByColumn(key, cmp))
  }

  /** `sortKey ? ... : data`: the sort key is truthy, so a key that is the empty string sorts nothing. */
  predicate Sorting(st: SortState) {
    st.key.Some? && st.key.value != ""
  }

  /** `sorted`: the input itself unless the sort key is truthy, otherwise a sorted copy. */
  function SortedRows(data: seq<Record>, st: SortState, cmp: (string, string) -> bool): (r: seq<Record>)
    ensures !Sorting(st) ==> r == data
    ensures |r| == |data|
  {
    match st.key
    case None => data
    case Some(key) =>
      if key == "" then data
      else
        var r := Sort(data, Comparator(key, st.asc, cmp));
        SortPermutes(data, Comparator(key, st.asc, cmp));
        assert |r| == |multiset(r)| == |multiset(data)| == |data|;
        r
  }

  lemma ByColumnPreorder(key: string, cmp: (string, string) -> bool)
    requires TotalPreorder(cmp)
    ensures TotalPreorder(ByColumn(key, cmp))
    ensures TotalPreorder(Flip(ByColumn(key, cmp)))
  {
    var le := ByColumn(key, cmp);
    forall a, b
      ensures le(a, b) || le(b, a)
    {
      assert cmp(CellText(a, key), CellText(b, key)) || cmp(CellText(b, key), CellText(a, key));
    }
    forall a, b, c | le(a, b) && le(b, c)
      ensures le(a, c)
    {
      assert cmp(CellText(a, key), CellText(b, key)) && cmp(CellText(b, key), CellText(c, key));
    }
  }

  /**
   * Whatever the sort state, the rows shown are a permutation of the input; sorted rows
   * are ordered by the comparator in use, and rows whose cells compare equal keep their
   * input order, descending included.
   */
  lemma SortedRowsSpec(data: seq<Record>, st: SortState, cmp: (string, string) -> bool)
    requires TotalPreorder(cmp)
    ensures multiset(SortedRows(data, st, cmp)) == multiset(data)
    ensures Sorting(st) ==> Sorted(SortedRows(data, st, cmp), Comparator(st.key.value, st.asc, cmp))
    ensures Sorting(st) ==> forall z ::
      Tied(SortedRows(data, st, cmp), z, ByColumn(st.key.value, cmp)) == Tied(data, z, ByColumn(st.key.value, cmp))
  {
    if Sorting(st) {
      var key := st.key.value;
      var le := Comparator(key, st.asc, cmp);
      ByColumnPreorder(key, cmp);
      SortPermutes(data, le);
      SortSorted(data, le);
      forall z
        ensures Tied(SortedRows(data, st, cmp), z, ByColumn(key, cmp)) == Tied(data, z, ByColumn(key, cmp))
      {
        SortStable(data, z, le);
        if !st.asc {
          TiedFlip(Sort(data, le), z, ByColumn(key, cmp));
          TiedFlip(data, z, ByColumn(key, cmp));
        }
      }
    }
  }

  /**
   * On a column whose key is not empty and whose cells are pairwise different, the
   * descending order is the ascending order reversed.
   */
  lemma DescendingReversesAscending(data: seq<Record>, key: string, cmp: (string, string) -> bool)
    requires TotalPreorder(cmp) && key != ""
    requires forall i, j :: 0 <= i < j < |data| ==> !Tie(ByColumn(key, cmp), data[i], data[j])
    ensures SortedRows(data, SortState(Some(key), false), cmp)
      == Reverse(SortedRows(data, SortState(Some(key), true), cmp))
  {
    ByColumnPreorder(key, cmp);
    SortFlipReverses(data, ByColumn(key, cmp));
  }

  /** What `formatCell` renders. */
  datatype CellView = Dash | Badge(status: string) | DateText(text: string) | Text(text: string)

  /**
   * `formatCell(key, value)`: `-` for a missing or `null` value, a status badge for the
   * `status` column, the locale date (`format`) for `last_seen`/`first_seen`, and
   * `String(value)` otherwise.
   */
  function FormatCell(key: string, value: Option<Json>, format: string -> string): (r: CellView)
    ensures r.Dash? <==> value.None? || value == Some(JNull)
    ensures r.Badge? <==> !r.Dash? && key == "status"
    ensures r.Badge? ==> r.status == JsString(value.value)
    ensures r.DateText? <==> !r.Dash? && (key == "last_seen" || key == "first_seen")
    ensures r.DateText? ==> r.text == format(JsString(value.value))
    ensures r.Text? ==> r.text == JsString(value.value)
  {
    match value
    case None => Dash
    case Some(v) =>
      if v.JNull? then Dash
      else if key == "status" then Badge(JsString(v))
      else if key == "last_seen" || key == "first_seen" then DateText(format(JsString(v)))
      else Text(JsString(v))
  }

  /** One header cell: its caption and whether clicking it sorts. */
  datatype Header = Header(caption: string, sortable: bool)

  datatype View =
    | Cards(cards: seq<seq<(string, CellView)>>, noData: bool)
    | TableLayout(headers: seq<Header>, rows: seq<seq<CellView>>, noData: bool)

  function CellOf(row: Record, key: string, format: string -> string): CellView {
    FormatCell(key, if key in row then Some(row[key]) else None, format)
  }

  /**
   * The render: cards (caption and cell per column) on a mobile width, otherwise a table;
   * either way one entry per shown row in sorted order, and "No data" exactly when empty.
   */
  function Render(columns: seq<WidgetColumn>, data: seq<Record>, st: SortState,
                  cmp: (string, string) -> bool, width: int, format: string -> string): (v: View)
    ensures v.Cards? <==> Classify(width).isMobile
    ensures v.noData <==> data == []
    ensures v.Cards? ==> |v.cards| == |data| && forall i :: 0 <= i < |data| ==>
      |v.cards[i]| == |columns| && forall c :: 0 <= c < |columns| ==>
        v.cards[i][c] == (columns[c].caption, CellOf(SortedRows(data, st, cmp)[i], columns[c].key, format))
    ensures v.TableLayout? ==> |v.rows| == |data| && |v.headers| == |columns|
    ensures v.TableLayout? ==> forall c :: 0 <= c < |columns| ==>
      v.headers[c] == Header(columns[c].caption, columns[c].sortable == Some(true))
    ensures v.TableLayout? ==> forall i :: 0 <= i < |data| ==>
      |v.rows[i]| == |columns| && forall c :: 0 <= c < |columns| ==>
        v.rows[i][c] == CellOf(SortedRows(data, st, cmp)[i], columns[c].key, format)
  {
    var sorted := SortedRows(data, st, cmp);
    if Classify(width).isMobile then
      Cards(seq(|sorted|, i requires 0 <= i < |sorted| =>
              seq(|columns|, c requires 0 <= c < |columns| =>
                (columns[c].caption, CellOf(sorted[i], columns[c].key, format)))),
            |sorted| == 0)
    else
      TableLayout(seq(|columns|, c requires 0 <= c < |columns| =>
                    Header(columns[c].caption, columns[c].sortable == Some(true))),
                  seq(|sorted|, i requires 0 <= i < |sorted| =>
                    seq(|columns|, c requires 0 <= c < |columns| => CellOf(sorted[i], columns[c].key, format))),
                  |sorted| == 0)
  }
}
