/** Structured Explore queries and the validator that admits them against a dataset catalog. */
module ExploreQueries {
  import opened Wrappers

  datatype ColumnRef = ColumnRef(dataset: string, column: string)

  datatype JoinType = Inner | Left

  datatype Join = Join(dataset: string, leftColumn: string, rightColumn: string, joinType: JoinType)

  datatype SortDirection = Asc | Desc

  datatype Query = Query(
    dataset: string,
    columnRefs: seq<ColumnRef>,
    joins: seq<Join>,
    orderBy: Option<ColumnRef>,
    orderDirection: SortDirection,
    rowLimit: nat)

  datatype Dataset = Dataset(name: string, columns: seq<string>)

  type Catalog = map<string, Dataset>

  datatype Rejection =
    | UnknownDataset
    | TooManyJoins
    | UnknownJoinDataset
    | SelfJoinNotSupported
    | DuplicateJoinDataset
    | UnknownJoinLeftColumn
    | UnknownJoinRightColumn
    | MissingColumns
    | DuplicateColumns
    | UnknownColumnDataset
    | UnknownColumn
    | UnknownOrderColumn

  const MAX_ROW_LIMIT := 500
  const MAX_JOIN_COUNT := 1

  /** Datasets keyed by name; a later dataset replaces an earlier one of the same name. */
  function ByName(datasets: seq<Dataset>): Catalog {
    if datasets == [] then map[]
    else
      var last := datasets[|datasets| - 1];
      ByName(datasets[..|datasets| - 1])[last.name := last]
  }

  lemma {:induction false} ByNameMeaning(datasets: seq<Dataset>)
    ensures forall name :: name in ByName(datasets) <==> exists d :: d in datasets && d.name == name
    ensures forall name :: name in ByName(datasets) ==>
              ByName(datasets)[name].name == name && ByName(datasets)[name] in datasets
  {
    if datasets == [] {
    } else {
      var init, last := datasets[..|datasets| - 1], datasets[|datasets| - 1];
      ByNameMeaning(init);
      assert datasets == init + [last];
      forall name ensures name in ByName(datasets) <==> exists d :: d in datasets && d.name == name {
        if name in ByName(init) {
          assert ByName(init)[name] in datasets;
        }
        if name == last.name {
          assert last in datasets;
        }
      }
    }
  }

  // ---------------------------------------------------------------- what an acceptable query is

  predicate InScope(q: Query, dataset: string) {
    dataset == q.dataset || exists k :: 0 <= k < |q.joins| && q.joins[k].dataset == dataset
  }

  predicate HasColumn(catalog: Catalog, ref: ColumnRef) {
    ref.dataset in catalog && ref.column in catalog[ref.dataset].columns
  }

  predicate JoinAllowed(catalog: Catalog, base: string, join: Join) {
    && join.dataset in catalog
    && join.dataset != base
    && HasColumn(catalog, ColumnRef(base, join.leftColumn))
    && HasColumn(catalog, ColumnRef(join.dataset, join.rightColumn))
  }

  predicate JoinsAllowed(catalog: Catalog, base: string, joins: seq<Join>) {
    && |joins| <= MAX_JOIN_COUNT
    && forall k :: 0 <= k < |joins| ==> JoinAllowed(catalog, base, joins[k])
  }

  predicate Selectable(catalog: Catalog, q: Query, ref: ColumnRef) {
    InScope(q, ref.dataset) && HasColumn(catalog, ref)
  }

  predicate ColumnsAllowed(catalog: Catalog, q: Query) {
    && q.columnRefs != []
    && NoDuplicates(q.columnRefs)
    && forall k :: 0 <= k < |q.columnRefs| ==> Selectable(catalog, q, q.columnRefs[k])
  }

  /** A query is acceptable when the catalog knows all of it and it joins at most once. */
  predicate Acceptable(catalog: Catalog, q: Query) {
    && q.dataset in catalog
    && JoinsAllowed(catalog, q.dataset, q.joins)
    && ColumnsAllowed(catalog, q)
    && (q.orderBy.Some? ==> Selectable(catalog, q, q.orderBy.value))
  }

  /** Which rejection a join set earns: the first join that fails, and its first failing check. */
  ghost predicate JoinRejection(catalog: Catalog, base: string, joins: seq<Join>, why: Rejection) {
    if |joins| > MAX_JOIN_COUNT then why == TooManyJoins
    else exists k :: 0 <= k < |joins| && OneJoinRejection(catalog, base, joins[k], why)
  }

  ghost predicate OneJoinRejection(catalog: Catalog, base: string, join: Join, why: Rejection) {
    if join.dataset !in catalog then why == UnknownJoinDataset
    else if join.dataset == base then why == SelfJoinNotSupported
    else if !HasColumn(catalog, ColumnRef(base, join.leftColumn)) then why == UnknownJoinLeftColumn
    else !HasColumn(catalog, ColumnRef(join.dataset, join.rightColumn)) && why == UnknownJoinRightColumn
  }

  /** Which rejection a projection earns: emptiness, then duplicates, then the first bad column. */
  ghost predicate ColumnRejection(catalog: Catalog, q: Query, why: Rejection) {
    if q.columnRefs == [] then why == MissingColumns
    else if !NoDuplicates(q.columnRefs) then why == DuplicateColumns
    else exists k ::
        && 0 <= k < |q.columnRefs|
        && !Selectable(catalog, q, q.columnRefs[k])
        && (forall j :: 0 <= j < k ==> Selectable(catalog, q, q.columnRefs[j]))
        && why == if InScope(q, q.columnRefs[k].dataset) then UnknownColumn else UnknownColumnDataset
  }

  /** The reason given for refusing a query is the first stage that fails. */
  ghost predicate Rejected(catalog: Catalog, q: Query, why: Rejection) {
    if q.dataset !in catalog then why == UnknownDataset
    else if !JoinsAllowed(catalog, q.dataset, q.joins) then JoinRejection(catalog, q.dataset, q.joins, why)
    else if !ColumnsAllowed(catalog, q) then ColumnRejection(catalog, q, why)
    else q.orderBy.Some? && !Selectable(catalog, q, q.orderBy.value) && why == UnknownOrderColumn
  }

  // ---------------------------------------------------------------- the same, by the shape of the query

  /** The one join of a query suits the catalog. */
  predicate JoinSuits(catalog: Catalog, base: string, join: Join)
    requires base in catalog
  {
    && join.dataset in catalog && join.dataset != base
    && join.leftColumn in catalog[base].columns && join.rightColumn in catalog[join.dataset].columns
  }

  /** A dataset a query may take columns from: its own or the joined one. */
  predicate IsSource(q: Query, dataset: string) {
    dataset == q.dataset || (|q.joins| == 1 && dataset == q.joins[0].dataset)
  }

  predicate Offers(catalog: Catalog, q: Query, ref: ColumnRef) {
    IsSource(q, ref.dataset) && ref.dataset in catalog && ref.column in catalog[ref.dataset].columns
  }

  predicate ShapeSuits(catalog: Catalog, q: Query) {
    q.dataset in catalog && (q.joins == [] || (|q.joins| == 1 && JoinSuits(catalog, q.dataset, q.joins[0])))
  }

  predicate ColumnsSuit(catalog: Catalog, q: Query) {
    q.columnRefs != [] && NoDuplicates(q.columnRefs) && forall ref :: ref in q.columnRefs ==> Offers(catalog, q, ref)
  }

  /** Acceptable means: a known dataset, no join or one suitable join, and columns from those one or two datasets. */
  lemma AcceptableMeaning(catalog: Catalog, q: Query)
    ensures Acceptable(catalog, q) <==>
            && ShapeSuits(catalog, q) && ColumnsSuit(catalog, q)
            && (q.orderBy.Some? ==> Offers(catalog, q, q.orderBy.value))
    ensures q.dataset in catalog && JoinsAllowed(catalog, q.dataset, q.joins) <==> ShapeSuits(catalog, q)
    ensures ShapeSuits(catalog, q) ==> (ColumnsAllowed(catalog, q) <==> ColumnsSuit(catalog, q))
  {
    if |q.joins| <= 1 {
      forall ref ensures Selectable(catalog, q, ref) <==> Offers(catalog, q, ref) {
      }
      forall k | 0 <= k < |q.columnRefs| ensures q.columnRefs[k] in q.columnRefs {
      }
    }
  }

  /** Each reason for the datasets and the join is given exactly in its own case. */
  lemma JoinRejectionMeaning(catalog: Catalog, q: Query, why: Rejection)
    requires Rejected(catalog, q, why)
    ensures why == UnknownDataset <==> q.dataset !in catalog
    ensures why == TooManyJoins <==> q.dataset in catalog && |q.joins| >= 2
    ensures why == UnknownJoinDataset <==> q.dataset in catalog && |q.joins| == 1 && q.joins[0].dataset !in catalog
    ensures why == SelfJoinNotSupported <==>
            q.dataset in catalog && |q.joins| == 1 && q.joins[0].dataset == q.dataset
    ensures why == UnknownJoinLeftColumn <==>
            && q.dataset in catalog && |q.joins| == 1 && q.joins[0].dataset in catalog && q.joins[0].dataset != q.dataset
            && q.joins[0].leftColumn !in catalog[q.dataset].columns
    ensures why == UnknownJoinRightColumn <==>
            && q.dataset in catalog && |q.joins| == 1 && q.joins[0].dataset in catalog && q.joins[0].dataset != q.dataset
            && q.joins[0].leftColumn in catalog[q.dataset].columns
            && q.joins[0].rightColumn !in catalog[q.joins[0].dataset].columns
    ensures why != DuplicateJoinDataset
  {
    if q.dataset in catalog && |q.joins| == 1 {
      assert JoinsAllowed(catalog, q.dataset, q.joins) <==> JoinAllowed(catalog, q.dataset, q.joins[0]);
    }
  }

  lemma ScopeMeaning(q: Query, dataset: string)
    requires |q.joins| <= 1
    ensures InScope(q, dataset) <==> IsSource(q, dataset)
  {
  }

  /** Where the shape suits, only a column can be at fault. */
  lemma SuitableShapeRejection(catalog: Catalog, q: Query, why: Rejection)
    requires Rejected(catalog, q, why)
    ensures ShapeSuits(catalog, q) <==>
            || why == MissingColumns || why == DuplicateColumns || why == UnknownColumnDataset || why == UnknownColumn
            || why == UnknownOrderColumn
  {
    AcceptableMeaning(catalog, q);
    JoinRejectionMeaning(catalog, q, why);
  }

  /** Each reason for the columns is given exactly in its own case. */
  lemma ColumnRejectionMeaning(catalog: Catalog, q: Query, why: Rejection)
    requires Rejected(catalog, q, why)
    ensures why == MissingColumns <==> ShapeSuits(catalog, q) && q.columnRefs == []
    ensures why == DuplicateColumns <==> ShapeSuits(catalog, q) && q.columnRefs != [] && !NoDuplicates(q.columnRefs)
    ensures why == UnknownColumnDataset || why == UnknownColumn <==>
            && ShapeSuits(catalog, q) && q.columnRefs != [] && NoDuplicates(q.columnRefs)
            && exists k ::
                 IsFirstUnoffered(catalog, q, k) && (why == UnknownColumn <==> IsSource(q, q.columnRefs[k].dataset))
    ensures why == UnknownOrderColumn <==>
            ShapeSuits(catalog, q) && ColumnsSuit(catalog, q) && q.orderBy.Some? && !Offers(catalog, q, q.orderBy.value)
  {
    SuitableShapeRejection(catalog, q, why);
    if ShapeSuits(catalog, q) {
      AcceptableMeaning(catalog, q);
      forall ref ensures Selectable(catalog, q, ref) <==> Offers(catalog, q, ref) {
        ScopeMeaning(q, ref.dataset);
      }
      if why == UnknownColumnDataset || why == UnknownColumn {
        var k :| 0 <= k < |q.columnRefs|
                 && !Selectable(catalog, q, q.columnRefs[k])
                 && (forall j :: 0 <= j < k ==> Selectable(catalog, q, q.columnRefs[j]))
                 && why == if InScope(q, q.columnRefs[k].dataset) then UnknownColumn else UnknownColumnDataset;
        assert IsFirstUnoffered(catalog, q, k);
        ScopeMeaning(q, q.columnRefs[k].dataset);
      }
    }
  }

  predicate IsFirstUnoffered(catalog: Catalog, q: Query, k: int) {
    && 0 <= k < |q.columnRefs| && !Offers(catalog, q, q.columnRefs[k])
    && forall j :: 0 <= j < k ==> Offers(catalog, q, q.columnRefs[j])
  }

  // ---------------------------------------------------------------- the validator

  method EnsureJoinShapeIsAllowed(joins: seq<Join>, base: string, catalog: Catalog)
    returns (r: Result<(), Rejection>)
    requires base in catalog
    ensures r.Ok? <==> JoinsAllowed(catalog, base, joins)
    ensures r.Err? ==> JoinRejection(catalog, base, joins, r.error)
  {
    if |joins| > MAX_JOIN_COUNT {
      return Err(TooManyJoins);
    }
    var seen: set<string> := {};
    for i := 0 to |joins|
      invariant forall k :: 0 <= k < i ==> JoinAllowed(catalog, base, joins[k])
      invariant seen == set k | 0 <= k < i :: joins[k].dataset
    {
      var join := joins[i];
      if join.dataset !in catalog {
        assert OneJoinRejection(catalog, base, join, UnknownJoinDataset);
        return Err(UnknownJoinDataset);
      }
      if join.dataset == base {
        assert OneJoinRejection(catalog, base, join, SelfJoinNotSupported);
        return Err(SelfJoinNotSupported);
      }
      if join.dataset in seen {
        return Err(DuplicateJoinDataset);
      }
      seen := seen + {join.dataset};
      if join.leftColumn !in catalog[base].columns {
        assert OneJoinRejection(catalog, base, join, UnknownJoinLeftColumn);
        return Err(UnknownJoinLeftColumn);
      }
      if join.rightColumn !in catalog[join.dataset].columns {
        assert OneJoinRejection(catalog, base, join, UnknownJoinRightColumn);
        return Err(UnknownJoinRightColumn);
      }
    }
    return Ok(());
  }

  method EnsureColumnRefIsSelectable(ref: ColumnRef, selectable: set<string>, catalog: Catalog)
    returns (r: Result<(), Rejection>)
    requires selectable <= catalog.Keys
    ensures r.Ok? <==> ref.dataset in selectable && HasColumn(catalog, ref)
    ensures r.Err? ==> r.error == if ref.dataset in selectable then UnknownColumn else UnknownColumnDataset
  {
    if ref.dataset !in selectable {
      return Err(UnknownColumnDataset);
    }
    if ref.column !in catalog[ref.dataset].columns {
      return Err(UnknownColumn);
    }
    return Ok(());
  }

  method EnsureSelectedColumnsAreAllowed(q: Query, selectable: set<string>, catalog: Catalog)
    returns (r: Result<(), Rejection>)
    requires selectable <= catalog.Keys
    requires forall name :: name in selectable <==> InScope(q, name)
    ensures r.Ok? <==> ColumnsAllowed(catalog, q)
    ensures r.Err? ==> ColumnRejection(catalog, q, r.error)
  {
    if q.columnRefs == [] {
      return Err(MissingColumns);
    }
    var keys := Elements(q.columnRefs);
    DistinctCount(q.columnRefs);
    if |q.columnRefs| != |keys| {
      return Err(DuplicateColumns);
    }
    for i := 0 to |q.columnRefs|
      invariant forall k :: 0 <= k < i ==> Selectable(catalog, q, q.columnRefs[k])
    {
      var checked := EnsureColumnRefIsSelectable(q.columnRefs[i], selectable, catalog);
      if checked.Err? {
        assert !Selectable(catalog, q, q.columnRefs[i]);
        return Err(checked.error);
      }
    }
    return Ok(());
  }

  function Elements<T(==)>(items: seq<T>): set<T> {
    set item | item in items
  }

  lemma NoDuplicatesSnoc<T>(init: seq<T>, last: T)
    ensures NoDuplicates(init + [last]) <==> NoDuplicates(init) && last !in init
  {
    var items, n := init + [last], |init|;
    assert forall k :: 0 <= k < n ==> items[k] == init[k];
    if NoDuplicates(items) {
      assert forall k :: 0 <= k < n ==> init[k] != items[n];
    }
  }

  /** Comparing a length with the size of the element set detects duplicates, both ways. */
  lemma {:induction false} DistinctCount<T>(items: seq<T>)
    ensures |Elements(items)| <= |items| && (|Elements(items)| == |items| <==> NoDuplicates(items))
  {
    if items == [] {
    } else {
      var init, last := items[..|items| - 1], items[|items| - 1];
      DistinctCount(init);
      NoDuplicatesSnoc(init, last);
      assert items == init + [last];
      assert Elements(items) == Elements(init) + {last};
    }
  }

  /** Accept exactly the acceptable queries, with the row limit capped; otherwise say why not. */
  method BuildExploreQuery(q: Query, datasets: seq<Dataset>) returns (r: Result<Query, Rejection>)
    ensures r.Ok? <==> Acceptable(ByName(datasets), q)
    ensures r.Ok? ==> r.value == q.(rowLimit := Min(q.rowLimit, MAX_ROW_LIMIT)) && r.value.rowLimit <= 500
    ensures r.Err? ==> Rejected(ByName(datasets), q, r.error)
  {
    var catalog := ByName(datasets);
    if q.dataset !in catalog {
      return Err(UnknownDataset);
    }
    var joined := EnsureJoinShapeIsAllowed(q.joins, q.dataset, catalog);
    if joined.Err? {
      return Err(joined.error);
    }
    var selectable := {q.dataset} + set k | 0 <= k < |q.joins| :: q.joins[k].dataset;
    var columns := EnsureSelectedColumnsAreAllowed(q, selectable, catalog);
    if columns.Err? {
      return Err(columns.error);
    }
    if q.orderBy.Some? {
      var ordered := EnsureColumnRefIsSelectable(q.orderBy.value, selectable, catalog);
      if ordered.Err? {
        return Err(UnknownOrderColumn);
      }
    }
    return Ok(q.(rowLimit := Min(q.rowLimit, MAX_ROW_LIMIT)));
  }
}
