/** Grouping the rows of the view-table metadata query back into one record per view. */
module ViewTableRows {
  import opened Wrappers

  datatype Column = Column(name: string, dataType: string)

  /** A left join: a view without columns contributes one row whose column is NULL. */
  datatype Row = Row(view: string, description: string, sourceSql: string, column: Option<Column>)

  datatype ViewTable = ViewTable(name: string, description: string, sourceSql: string, columns: seq<Column>)

  function ColumnsOf(column: Option<Column>): seq<Column> {
    if column.Some? then [column.value] else []
  }

  function Names(views: seq<ViewTable>): seq<string> {
    seq(|views|, i requires 0 <= i < |views| => views[i].name)
  }

  /** The view names in order of first appearance. */
  function FirstNames(rows: seq<Row>): seq<string> {
    if rows == [] then []
    else
      var init, name := FirstNames(rows[..|rows| - 1]), rows[|rows| - 1].view;
      if name in init then init else init + [name]
  }

  /** The rows of one view are next to each other: the query orders by name. */
  ghost predicate Adjacent(rows: seq<Row>) {
    forall i, j, k :: 0 <= i < j < k < |rows| && rows[i].view == rows[k].view ==> rows[j].view == rows[i].view
  }

  /** Rows of one view repeat its metadata. */
  ghost predicate Consistent(rows: seq<Row>) {
    forall i, j :: 0 <= i < j < |rows| && rows[i].view == rows[j].view ==>
      rows[i].description == rows[j].description && rows[i].sourceSql == rows[j].sourceSql
  }

  /** The non-null column rows, in their order. */
  function ColumnRows(rows: seq<Row>): seq<Row> {
    if rows == [] then []
    else
      var last := rows[|rows| - 1];
      ColumnRows(rows[..|rows| - 1]) + if last.column.Some? then [last] else []
  }

  function RowsOfView(view: ViewTable): seq<Row> {
    seq(|view.columns|, i requires 0 <= i < |view.columns| =>
      Row(view.name, view.description, view.sourceSql, Some(view.columns[i])))
  }

  function Flatten(views: seq<ViewTable>): seq<Row> {
    if views == [] then [] else Flatten(views[..|views| - 1]) + RowsOfView(views[|views| - 1])
  }

  /** `from` are the rows that give a column, in order: those of one view, or of any where `view` is absent. */
  ghost predicate AreColumnRows(rows: seq<Row>, view: Option<string>, from: seq<nat>) {
    && (forall i, j :: 0 <= i < j < |from| ==> from[i] < from[j])
    && (forall i: nat :: i in from <==>
          i < |rows| && rows[i].column.Some? && (view.Some? ==> rows[i].view == view.value))
  }

  /** The non-null columns of one view, in row order. */
  function ColumnsNamed(rows: seq<Row>, view: string): seq<Column> {
    if rows == [] then []
    else
      var last := rows[|rows| - 1];
      ColumnsNamed(rows[..|rows| - 1], view) + if last.view == view then ColumnsOf(last.column) else []
  }

  lemma {:induction false} ColumnsNamedMeaning(rows: seq<Row>, view: string) returns (from: seq<nat>)
    ensures AreColumnRows(rows, Some(view), from) && |from| == |ColumnsNamed(rows, view)|
    ensures forall k :: 0 <= k < |from| ==> from[k] < |rows| && Some(ColumnsNamed(rows, view)[k]) == rows[from[k]].column
  {
    if rows == [] {
      from := [];
    } else {
      var n := |rows| - 1;
      from := ColumnsNamedMeaning(rows[..n], view);
      if rows[n].view == view && rows[n].column.Some? {
        NextColumn(rows, view, from);
        from := from + [n];
      }
    }
  }

  lemma NextColumn(rows: seq<Row>, view: string, from: seq<nat>)
    requires rows != [] && rows[|rows| - 1].view == view && rows[|rows| - 1].column.Some?
    requires AreColumnRows(rows[..|rows| - 1], Some(view), from)
    requires |from| == |ColumnsNamed(rows[..|rows| - 1], view)|
    ensures AreColumnRows(rows, Some(view), from + [|rows| - 1])
    ensures ColumnsNamed(rows, view) == ColumnsNamed(rows[..|rows| - 1], view) + [rows[|rows| - 1].column.value]
  {
    SnocPosition(from, |rows| - 1);
  }

  lemma SnocPosition(from: seq<nat>, n: nat)
    requires forall i, j :: 0 <= i < j < |from| ==> from[i] < from[j]
    requires forall i :: i in from ==> i < n
    ensures var all := from + [n];
            && (forall i, j :: 0 <= i < j < |all| ==> all[i] < all[j])
            && forall i :: i in all <==> i in from || i == n
  {
    forall k | 0 <= k < |from| ensures from[k] < n {
      assert from[k] in from;
    }
  }

  lemma {:induction false} ColumnRowsMeaning(rows: seq<Row>) returns (from: seq<nat>)
    ensures AreColumnRows(rows, None, from) && |from| == |ColumnRows(rows)|
    ensures forall k :: 0 <= k < |from| ==> from[k] < |rows| && ColumnRows(rows)[k] == rows[from[k]]
  {
    if rows == [] {
      from := [];
    } else {
      var n := |rows| - 1;
      from := ColumnRowsMeaning(rows[..n]);
      if rows[n].column.Some? {
        SnocPosition(from, n);
        from := from + [n];
      }
    }
  }

  lemma {:induction false} FirstNamesMeaning(rows: seq<Row>)
    ensures forall i, j :: 0 <= i < j < |FirstNames(rows)| ==> FirstNames(rows)[i] != FirstNames(rows)[j]
    ensures forall k :: 0 <= k < |rows| ==> rows[k].view in FirstNames(rows)
    ensures forall name :: name in FirstNames(rows) ==> exists k :: 0 <= k < |rows| && rows[k].view == name
  {
    if rows == [] {
    } else {
      var n := |rows| - 1;
      var init := rows[..n];
      FirstNamesMeaning(init);
      forall k | 0 <= k < |rows| ensures rows[k].view in FirstNames(rows) {
        if k < n {
          assert init[k].view in FirstNames(init);
        }
      }
      forall name | name in FirstNames(rows) ensures exists k :: 0 <= k < |rows| && rows[k].view == name {
        if name in FirstNames(init) {
          var k :| 0 <= k < n && init[k].view == name;
          assert rows[k].view == name;
        } else {
          assert rows[n].view == name;
        }
      }
    }
  }

  /** Of two names, the earlier one has a row before every row of the later one. */
  ghost predicate AppearsBefore(rows: seq<Row>, a: string, b: string) {
    exists k :: 0 <= k < |rows| && rows[k].view == a && forall l :: 0 <= l <= k ==> rows[l].view != b
  }

  lemma {:induction false} FirstNamesOrder(rows: seq<Row>)
    ensures var names := FirstNames(rows);
            forall i, j :: 0 <= i < j < |names| ==> AppearsBefore(rows, names[i], names[j])
  {
    if rows == [] {
    } else {
      var init, names := rows[..|rows| - 1], FirstNames(rows);
      FirstNamesOrder(init);
      FirstNamesMeaning(init);
      forall i, j | 0 <= i < j < |names| ensures AppearsBefore(rows, names[i], names[j]) {
        assert names[i] == FirstNames(init)[i] && names[i] in FirstNames(init);
        if j < |FirstNames(init)| {
          assert AppearsBefore(init, FirstNames(init)[i], FirstNames(init)[j]);
          AppearsBeforeSnoc(rows, names[i], names[j]);
        } else {
          var k :| 0 <= k < |init| && init[k].view == names[i];
          assert forall l :: 0 <= l <= k ==> rows[l] == init[l] && init[l].view in FirstNames(init);
          assert rows[k].view == names[i];
        }
      }
    }
  }

  lemma AppearsBeforeSnoc(rows: seq<Row>, a: string, b: string)
    requires rows != [] && AppearsBefore(rows[..|rows| - 1], a, b)
    ensures AppearsBefore(rows, a, b)
  {
    var init := rows[..|rows| - 1];
    var k :| 0 <= k < |init| && init[k].view == a && forall l :: 0 <= l <= k ==> init[l].view != b;
    assert rows[k].view == a && forall l :: 0 <= l <= k ==> rows[l] == init[l];
  }

  /** With sorted rows only the record begun last can still grow. */
  lemma {:induction false} LastNameIsLastRow(rows: seq<Row>)
    requires Adjacent(rows) && rows != []
    ensures FirstNames(rows) != [] && FirstNames(rows)[|FirstNames(rows)| - 1] == rows[|rows| - 1].view
  {
    var n := |rows| - 1;
    var init := rows[..n];
    if rows[n].view !in FirstNames(init) {
    } else {
      SeenNameIsPrevious(rows);
      LastNameIsLastRow(init);
    }
  }

  lemma SeenNameIsPrevious(rows: seq<Row>)
    requires Adjacent(rows) && rows != [] && rows[|rows| - 1].view in FirstNames(rows[..|rows| - 1])
    ensures |rows| > 1 && rows[|rows| - 2].view == rows[|rows| - 1].view
    ensures Adjacent(rows[..|rows| - 1])
  {
    var n := |rows| - 1;
    FirstNamesMeaning(rows[..n]);
    var k :| 0 <= k < n && rows[..n][k].view == rows[n].view;
    if k < n - 1 {
      assert rows[n - 1].view == rows[k].view;
    }
  }

  predicate Matches(view: ViewTable, row: Row) {
    view.name == row.view ==> view.description == row.description && view.sourceSql == row.sourceSql
  }

  /**
    `views` is the grouping of `rows`: one record per name in order of appearance, carrying
    the metadata of every row of that name, and its columns are that view's non-null rows.
  */
  ghost predicate Groups(views: seq<ViewTable>, rows: seq<Row>) {
    && Names(views) == FirstNames(rows)
    && Flatten(views) == ColumnRows(rows)
    && (forall i, k :: 0 <= i < |views| && 0 <= k < |rows| ==> Matches(views[i], rows[k]))
    && forall i :: 0 <= i < |views| ==> HasItsColumns(views[i], rows)
  }

  predicate HasItsColumns(view: ViewTable, rows: seq<Row>) {
    view.columns == ColumnsNamed(rows, view.name)
  }

  lemma FlattenSnoc(views: seq<ViewTable>, view: ViewTable)
    ensures Flatten(views + [view]) == Flatten(views) + RowsOfView(view)
  {
    assert (views + [view])[..|views|] == views;
  }

  lemma SnocRow(rows: seq<Row>, row: Row)
    ensures ColumnRows(rows + [row]) == ColumnRows(rows) + if row.column.Some? then [row] else []
    ensures FirstNames(rows + [row]) ==
            if row.view in FirstNames(rows) then FirstNames(rows) else FirstNames(rows) + [row.view]
    ensures forall view :: ColumnsNamed(rows + [row], view) ==
              ColumnsNamed(rows, view) + if row.view == view then ColumnsOf(row.column) else []
  {
    assert (rows + [row])[..|rows|] == rows;
  }

  method IndexOf(views: seq<ViewTable>, name: string) returns (i: nat)
    ensures i <= |views| && (i < |views| ==> views[i].name == name)
    ensures forall k :: 0 <= k < i ==> views[k].name != name
  {
    i := 0;
    while i < |views| && views[i].name != name
      invariant i <= |views| && forall k :: 0 <= k < i ==> views[k].name != name
    {
      i := i + 1;
    }
  }

  /** What one row does to the records built so far: it may begin a record and may add a column. */
  method AddRow(views: seq<ViewTable>, row: Row, ghost rows: seq<Row>) returns (views': seq<ViewTable>)
    requires Adjacent(rows + [row]) && Consistent(rows + [row]) && Groups(views, rows)
    ensures Groups(views', rows + [row])
  {
    var i := IndexOf(views, row.view);
    if i == |views| {
      views' := views + [ViewTable(row.view, row.description, row.sourceSql, ColumnsOf(row.column))];
      NewKeepsGroups(views, row, rows);
    } else {
      views' := views[i := views[i].(columns := views[i].columns + ColumnsOf(row.column))];
      ExtendKeepsGroups(views, row, rows, i);
    }
  }

  lemma NewKeepsGroups(views: seq<ViewTable>, row: Row, rows: seq<Row>)
    requires Groups(views, rows) && forall k :: 0 <= k < |views| ==> views[k].name != row.view
    ensures Groups(views + [ViewTable(row.view, row.description, row.sourceSql, ColumnsOf(row.column))], rows + [row])
  {
    var view := ViewTable(row.view, row.description, row.sourceSql, ColumnsOf(row.column));
    var views', rows' := views + [view], rows + [row];
    FlattenSnoc(views, view);
    SnocRow(rows, row);
    NewRow(views, view, row);
    NewMatches(views, view, row, rows);
    NewColumns(views, view, row, rows);
  }

  lemma NewColumns(views: seq<ViewTable>, view: ViewTable, row: Row, rows: seq<Row>)
    requires forall i :: 0 <= i < |views| ==> HasItsColumns(views[i], rows) && views[i].name != row.view
    requires row.view !in FirstNames(rows) && view.name == row.view && view.columns == ColumnsOf(row.column)
    ensures forall i :: 0 <= i < |views + [view]| ==> HasItsColumns((views + [view])[i], rows + [row])
  {
    SnocRow(rows, row);
    UnseenHasNoColumns(rows, row.view);
    forall i | 0 <= i < |views| ensures HasItsColumns(views[i], rows + [row]) {
      assert HasItsColumns(views[i], rows);
    }
  }

  lemma {:induction false} UnseenHasNoColumns(rows: seq<Row>, view: string)
    requires view !in FirstNames(rows)
    ensures ColumnsNamed(rows, view) == []
  {
    if rows == [] {
    } else {
      UnseenHasNoColumns(rows[..|rows| - 1], view);
    }
  }

  lemma ExtendColumns(views: seq<ViewTable>, extended: ViewTable, row: Row, rows: seq<Row>)
    requires views != [] && forall i :: 0 <= i < |views| ==> HasItsColumns(views[i], rows)
    requires forall i :: 0 <= i < |views| - 1 ==> views[i].name != row.view
    requires extended == views[|views| - 1].(columns := views[|views| - 1].columns + ColumnsOf(row.column))
    requires extended.name == row.view
    ensures var views' := views[|views| - 1 := extended];
            forall i :: 0 <= i < |views'| ==> HasItsColumns(views'[i], rows + [row])
  {
    SnocRow(rows, row);
    assert HasItsColumns(views[|views| - 1], rows);
    forall i | 0 <= i < |views| - 1 ensures HasItsColumns(views[i], rows + [row]) {
      assert HasItsColumns(views[i], rows);
    }
  }

  lemma OthersAreNamedOtherwise(views: seq<ViewTable>, rows: seq<Row>)
    requires Names(views) == FirstNames(rows) && views != []
    ensures forall i :: 0 <= i < |views| - 1 ==> views[i].name != views[|views| - 1].name
  {
    FirstNamesMeaning(rows);
    forall i | 0 <= i < |views| - 1 ensures views[i].name != views[|views| - 1].name {
      assert Names(views)[i] != Names(views)[|views| - 1];
    }
  }

  lemma NewRow(views: seq<ViewTable>, view: ViewTable, row: Row)
    requires view == ViewTable(row.view, row.description, row.sourceSql, ColumnsOf(row.column))
    requires forall k :: 0 <= k < |views| ==> views[k].name != row.view
    ensures row.view !in Names(views) && Names(views + [view]) == Names(views) + [row.view]
    ensures RowsOfView(view) == if row.column.Some? then [row] else []
  {
  }

  lemma NewMatches(views: seq<ViewTable>, view: ViewTable, row: Row, rows: seq<Row>)
    requires forall i, k :: 0 <= i < |views| && 0 <= k < |rows| ==> Matches(views[i], rows[k])
    requires row.view !in FirstNames(rows) && forall i :: 0 <= i < |views| ==> views[i].name != row.view
    requires view.name == row.view && view.description == row.description && view.sourceSql == row.sourceSql
    ensures var views', rows' := views + [view], rows + [row];
            forall i, k :: 0 <= i < |views'| && 0 <= k < |rows'| ==> Matches(views'[i], rows'[k])
  {
    var views', rows' := views + [view], rows + [row];
    FirstNamesMeaning(rows);
    forall i, k | 0 <= i < |views'| && 0 <= k < |rows'| ensures Matches(views'[i], rows'[k]) {
      if i < |views| && k < |rows| {
        assert Matches(views[i], rows[k]);
      } else if k < |rows| {
        assert rows[k].view in FirstNames(rows);
      }
    }
  }

  lemma {:induction false} OnlyLastGrows(views: seq<ViewTable>, row: Row, rows: seq<Row>, i: nat)
    requires Adjacent(rows + [row]) && Names(views) == FirstNames(rows) && i < |views| && views[i].name == row.view
    ensures i == |views| - 1 && FirstNames(rows + [row]) == FirstNames(rows)
    ensures exists k :: 0 <= k < |rows| && rows[k].view == row.view
  {
    SnocRow(rows, row);
    FirstNamesMeaning(rows);
    assert Names(views)[i] == row.view;
    LastNameIsLastRow(rows + [row]);
    assert Names(views)[|views| - 1] == row.view;
  }

  lemma ExtendKeepsGroups(views: seq<ViewTable>, row: Row, rows: seq<Row>, i: nat)
    requires Adjacent(rows + [row]) && Consistent(rows + [row]) && Groups(views, rows)
    requires i < |views| && views[i].name == row.view
    ensures Groups(views[i := views[i].(columns := views[i].columns + ColumnsOf(row.column))], rows + [row])
  {
    OnlyLastGrows(views, row, rows, i);
    var extended := views[i].(columns := views[i].columns + ColumnsOf(row.column));
    SameMetadata(views[i], row, rows);
    ExtendLast(views, extended, row);
    SnocRow(rows, row);
    ExtendMatches(views, extended, row, rows);
    OthersAreNamedOtherwise(views, rows);
    ExtendColumns(views, extended, row, rows);
  }

  lemma ExtendLast(views: seq<ViewTable>, extended: ViewTable, row: Row)
    requires views != []
    requires extended == views[|views| - 1].(columns := views[|views| - 1].columns + ColumnsOf(row.column))
    requires extended.name == row.view && extended.description == row.description && extended.sourceSql == row.sourceSql
    ensures Names(views[|views| - 1 := extended]) == Names(views)
    ensures Flatten(views[|views| - 1 := extended]) == Flatten(views) + if row.column.Some? then [row] else []
  {
    var n := |views| - 1;
    assert views == views[..n] + [views[n]] && views[n := extended] == views[..n] + [extended];
    ExtendFlattens(views[..n], views[n], extended, row);
  }

  lemma ExtendMatches(views: seq<ViewTable>, extended: ViewTable, row: Row, rows: seq<Row>)
    requires Groups(views, rows) && views != []
    requires extended == views[|views| - 1].(columns := extended.columns)
    requires extended.name == row.view && extended.description == row.description && extended.sourceSql == row.sourceSql
    ensures var views', rows' := views[|views| - 1 := extended], rows + [row];
            forall j, k :: 0 <= j < |views'| && 0 <= k < |rows'| ==> Matches(views'[j], rows'[k])
  {
    var n, rows' := |views| - 1, rows + [row];
    var views' := views[n := extended];
    FirstNamesMeaning(rows);
    forall j, k | 0 <= j < |views'| && 0 <= k < |rows'| ensures Matches(views'[j], rows'[k]) {
      if k < |rows| {
        assert Matches(views[j], rows[k]);
      } else if j < n {
        assert Names(views)[j] != Names(views)[n];
      }
    }
  }

  lemma ExtendFlattens(init: seq<ViewTable>, last: ViewTable, extended: ViewTable, row: Row)
    requires extended == last.(columns := last.columns + ColumnsOf(row.column))
    requires last.name == row.view && last.description == row.description && last.sourceSql == row.sourceSql
    ensures Flatten(init + [extended]) == Flatten(init + [last]) + if row.column.Some? then [row] else []
  {
    var more := if row.column.Some? then [row] else [];
    FlattenSnoc(init, last);
    FlattenSnoc(init, extended);
    ExtendRows(last, extended, row);
    ConcatAssociates(Flatten(init), RowsOfView(last), more);
  }

  lemma ExtendRows(last: ViewTable, extended: ViewTable, row: Row)
    requires extended == last.(columns := last.columns + ColumnsOf(row.column))
    requires last.name == row.view && last.description == row.description && last.sourceSql == row.sourceSql
    ensures RowsOfView(extended) == RowsOfView(last) + if row.column.Some? then [row] else []
  {
    var more := if row.column.Some? then [row] else [];
    var before, after := RowsOfView(last), RowsOfView(extended);
    assert |after| == |before| + |more|;
    forall k | 0 <= k < |after| ensures after[k] == (before + more)[k] {
    }
  }

  lemma SameMetadata(view: ViewTable, row: Row, rows: seq<Row>)
    requires Consistent(rows + [row]) && view.name == row.view
    requires forall k :: 0 <= k < |rows| ==> Matches(view, rows[k])
    requires exists k :: 0 <= k < |rows| && rows[k].view == row.view
    ensures view.description == row.description && view.sourceSql == row.sourceSql
  {
    var rows' := rows + [row];
    var k :| 0 <= k < |rows| && rows[k].view == row.view;
    assert rows'[k] == rows[k] && rows'[|rows|] == row;
    assert Matches(view, rows[k]);
  }

  /**
    One record per view name in order, columnless views included, each with its metadata;
    flattening the records gives back the non-null rows in their original order.
  */
  method LoadViewTables(rows: seq<Row>) returns (views: seq<ViewTable>)
    requires Adjacent(rows) && Consistent(rows)
    ensures Names(views) == FirstNames(rows)
    ensures Flatten(views) == ColumnRows(rows)
    ensures forall i, k :: 0 <= i < |views| && 0 <= k < |rows| ==> Matches(views[i], rows[k])
    ensures forall i :: 0 <= i < |views| ==> views[i].columns == ColumnsNamed(rows, views[i].name)
  {
    views := [];
    for n := 0 to |rows|
      invariant Groups(views, rows[..n])
    {
      assert rows[..n + 1] == rows[..n] + [rows[n]];
      PrefixIsSorted(rows, n + 1);
      views := AddRow(views, rows[n], rows[..n]);
    }
    assert rows[..|rows|] == rows;
    assert forall i :: 0 <= i < |views| ==> HasItsColumns(views[i], rows);
  }

  lemma PrefixIsSorted(rows: seq<Row>, n: nat)
    requires Adjacent(rows) && Consistent(rows) && n <= |rows|
    ensures Adjacent(rows[..n]) && Consistent(rows[..n])
  {
  }
}
