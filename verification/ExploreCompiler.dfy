/** From a structured query to a SELECT over pruned table clauses, and why pruning is sound. */
module ExploreCompiler {
  import opened Wrappers
  import opened ExploreQueries

  datatype Value = Null | Number(n: int) | Text(s: string)

  type Row = map<string, Value>

  type Database = map<string, seq<Row>>

  /** A joined row: each dataset's row, or `None` where an outer join found no match. */
  type Tuple = map<string, Option<Row>>

  /** A table clause exposes only the columns it lists. */
  datatype TableClause = TableClause(name: string, columns: seq<string>)

  datatype From =
    | Scan(table: TableClause)
    | JoinOn(source: From, table: TableClause, left: ColumnRef, right: ColumnRef, isOuter: bool)

  datatype Select = Select(
    columns: seq<(ColumnRef, string)>,
    from: From,
    orderBy: Option<(ColumnRef, SortDirection)>,
    limit: nat)

  // ---------------------------------------------------------------- required columns

  /** Every column a query mentions: projected, ordered by, or joined on. */
  function References(q: Query): seq<ColumnRef> {
    q.columnRefs + (if q.orderBy.Some? then [q.orderBy.value] else []) + JoinReferences(q.dataset, q.joins)
  }

  function JoinReferences(base: string, joins: seq<Join>): seq<ColumnRef> {
    if joins == [] then []
    else
      JoinReferences(base, joins[..|joins| - 1]) + OneJoinReferences(base, joins[|joins| - 1])
  }

  function OneJoinReferences(base: string, join: Join): seq<ColumnRef> {
    [ColumnRef(base, join.leftColumn), ColumnRef(join.dataset, join.rightColumn)]
  }

  ghost predicate Mentions(refs: seq<ColumnRef>, dataset: string) {
    exists k :: 0 <= k < |refs| && refs[k].dataset == dataset
  }

  lemma MentionsSnoc(refs: seq<ColumnRef>, ref: ColumnRef, dataset: string)
    ensures Mentions(refs + [ref], dataset) <==> Mentions(refs, dataset) || ref.dataset == dataset
  {
    var all := refs + [ref];
    if Mentions(refs, dataset) {
      var k :| 0 <= k < |refs| && refs[k].dataset == dataset;
      assert all[k].dataset == dataset;
    }
    if ref.dataset == dataset {
      assert all[|refs|].dataset == dataset;
    }
  }

  /** Of any two listed columns of dataset `d`, the earlier one is referenced first. */
  ghost predicate InFirstUseOrder(columns: seq<string>, d: string, refs: seq<ColumnRef>) {
    forall i, j :: 0 <= i < j < |columns| ==> UsedBefore(ColumnRef(d, columns[i]), ColumnRef(d, columns[j]), refs)
  }

  ghost predicate UsedBefore(a: ColumnRef, b: ColumnRef, refs: seq<ColumnRef>) {
    exists k :: 0 <= k < |refs| && refs[k] == a && b !in refs[..k]
  }

  lemma UsedBeforeSnoc(a: ColumnRef, b: ColumnRef, refs: seq<ColumnRef>, ref: ColumnRef)
    ensures UsedBefore(a, b, refs) ==> UsedBefore(a, b, refs + [ref])
    ensures a in refs && b !in refs ==> UsedBefore(a, b, refs + [ref])
  {
    var all := refs + [ref];
    if UsedBefore(a, b, refs) {
      var k :| 0 <= k < |refs| && refs[k] == a && b !in refs[..k];
      assert all[k] == a && all[..k] == refs[..k];
    }
  }

  /**
    The column lists hold exactly the referenced columns, each once and in order of first use,
    and there is one list per dataset in use.
  */
  ghost predicate ExactlyRequired(m: map<string, seq<string>>, base: string, refs: seq<ColumnRef>) {
    && (forall d :: d in m <==> d == base || Mentions(refs, d))
    && (forall d :: d in m ==> NoDuplicates(m[d]))
    && (forall d, c :: d in m ==> (c in m[d] <==> ColumnRef(d, c) in refs))
    && (forall d :: d in m ==> InFirstUseOrder(m[d], d, refs))
  }

  method AppendUniqueColumn(m: map<string, seq<string>>, ref: ColumnRef, ghost base: string, ghost refs: seq<ColumnRef>)
    returns (m': map<string, seq<string>>)
    requires ExactlyRequired(m, base, refs)
    ensures ExactlyRequired(m', base, refs + [ref])
  {
    m' := if ref.dataset in m then m else m[ref.dataset := []];
    if ref.column !in m'[ref.dataset] {
      m' := m'[ref.dataset := m'[ref.dataset] + [ref.column]];
    }
    forall d ensures Mentions(refs + [ref], d) <==> Mentions(refs, d) || ref.dataset == d {
      MentionsSnoc(refs, ref, d);
    }
    forall d | d in m' ensures InFirstUseOrder(m'[d], d, refs + [ref]) {
      AppendKeepsOrder(if d in m then m[d] else [], m'[d], d, refs, ref);
    }
  }

  lemma AppendKeepsOrder(old_: seq<string>, new_: seq<string>, d: string, refs: seq<ColumnRef>, ref: ColumnRef)
    requires InFirstUseOrder(old_, d, refs) && forall c :: c in old_ ==> ColumnRef(d, c) in refs
    requires new_ == old_ || (ref == ColumnRef(d, ref.column) && ref !in refs && new_ == old_ + [ref.column])
    ensures InFirstUseOrder(new_, d, refs + [ref])
  {
    forall i, j | 0 <= i < j < |new_|
      ensures UsedBefore(ColumnRef(d, new_[i]), ColumnRef(d, new_[j]), refs + [ref])
    {
      assert new_[i] == old_[i] && old_[i] in old_;
      UsedBeforeSnoc(ColumnRef(d, new_[i]), ColumnRef(d, new_[j]), refs, ref);
    }
  }

  method AppendColumns(m: map<string, seq<string>>, columnRefs: seq<ColumnRef>, ghost base: string)
    returns (m': map<string, seq<string>>)
    requires ExactlyRequired(m, base, [])
    ensures ExactlyRequired(m', base, columnRefs)
  {
    m' := m;
    for i := 0 to |columnRefs|
      invariant ExactlyRequired(m', base, columnRefs[..i])
    {
      m' := AppendUniqueColumn(m', columnRefs[i], base, columnRefs[..i]);
      assert columnRefs[..i + 1] == columnRefs[..i] + [columnRefs[i]];
    }
    assert columnRefs[..|columnRefs|] == columnRefs;
  }

  method AppendJoin(m: map<string, seq<string>>, base: string, join: Join, ghost refs: seq<ColumnRef>)
    returns (m': map<string, seq<string>>)
    requires ExactlyRequired(m, base, refs)
    ensures ExactlyRequired(m', base, refs + OneJoinReferences(base, join))
  {
    var left, right := ColumnRef(base, join.leftColumn), ColumnRef(join.dataset, join.rightColumn);
    m' := AppendUniqueColumn(m, left, base, refs);
    m' := AppendUniqueColumn(m', right, base, refs + [left]);
    assert refs + [left] + [right] == refs + OneJoinReferences(base, join);
  }

  method AppendJoinColumns(m: map<string, seq<string>>, base: string, joins: seq<Join>, ghost refs: seq<ColumnRef>)
    returns (m': map<string, seq<string>>)
    requires ExactlyRequired(m, base, refs)
    ensures ExactlyRequired(m', base, refs + JoinReferences(base, joins))
  {
    m' := m;
    ghost var seen := refs;
    for i := 0 to |joins|
      invariant seen == refs + JoinReferences(base, joins[..i])
      invariant ExactlyRequired(m', base, seen)
    {
      m' := AppendJoin(m', base, joins[i], seen);
      JoinReferencesNext(base, joins, i, refs);
      seen := seen + OneJoinReferences(base, joins[i]);
    }
    assert joins[..|joins|] == joins;
  }

  lemma JoinReferencesNext(base: string, joins: seq<Join>, i: nat, refs: seq<ColumnRef>)
    requires i < |joins|
    ensures refs + JoinReferences(base, joins[..i + 1]) ==
            refs + JoinReferences(base, joins[..i]) + OneJoinReferences(base, joins[i])
  {
    assert joins[..i + 1][..i] == joins[..i];
  }

  method RequiredColumnsByDataset(q: Query) returns (m: map<string, seq<string>>)
    ensures ExactlyRequired(m, q.dataset, References(q))
  {
    m := AppendColumns(map[q.dataset := []], q.columnRefs, q.dataset);
    ghost var refs := q.columnRefs;
    if q.orderBy.Some? {
      m := AppendUniqueColumn(m, q.orderBy.value, q.dataset, refs);
      refs := refs + [q.orderBy.value];
    }
    assert refs == q.columnRefs + if q.orderBy.Some? then [q.orderBy.value] else [];
    m := AppendJoinColumns(m, q.dataset, q.joins, refs);
  }

  // ---------------------------------------------------------------- compilation

  function Label(ref: ColumnRef): string {
    ref.dataset + "_" + ref.column
  }

  /** The column object of a table clause; looking up a column it does not list is an error. */
  function ColumnOf(table: TableClause, column: string): ColumnRef
    requires column in table.columns
  {
    ColumnRef(table.name, column)
  }

  function FromOf(m: map<string, seq<string>>, base: string, joins: seq<Join>): From
    requires base in m && forall k :: 0 <= k < |joins| ==> joins[k].dataset in m
  {
    if joins == [] then Scan(TableClause(base, m[base]))
    else
      var join := joins[|joins| - 1];
      JoinOn(FromOf(m, base, joins[..|joins| - 1]), TableClause(join.dataset, m[join.dataset]),
             ColumnRef(base, join.leftColumn), ColumnRef(join.dataset, join.rightColumn), join.joinType.Left?)
  }

  function OutputLabels(q: Query): seq<string> {
    seq(|q.columnRefs|, i requires 0 <= i < |q.columnRefs| =>
      if q.joins != [] then Label(q.columnRefs[i]) else q.columnRefs[i].column)
  }

  /** The statement a query compiles to, given its required columns. */
  ghost predicate IsStatementOf(q: Query, m: map<string, seq<string>>, s: Select) {
    && ExactlyRequired(m, q.dataset, References(q))
    && (forall k :: 0 <= k < |q.joins| ==> q.joins[k].dataset in m)
    && s.from == FromOf(m, q.dataset, q.joins)
    && |s.columns| == |q.columnRefs|
    && (forall k :: 0 <= k < |q.columnRefs| ==> s.columns[k] == (q.columnRefs[k], OutputLabels(q)[k]))
    && s.orderBy == (if q.orderBy.Some? then Some((q.orderBy.value, q.orderDirection)) else None)
    && s.limit == q.rowLimit
  }

  /** `s` is the statement of `q` over tables pruned to exactly the columns `q` requires. */
  ghost predicate CompilesTo(q: Query, s: Select) {
    exists m :: IsStatementOf(q, m, s)
  }

  lemma {:induction false} JoinReferenced(base: string, joins: seq<Join>, k: nat)
    requires k < |joins|
    ensures ColumnRef(base, joins[k].leftColumn) in JoinReferences(base, joins)
    ensures ColumnRef(joins[k].dataset, joins[k].rightColumn) in JoinReferences(base, joins)
  {
    if k == |joins| - 1 {
    } else {
      JoinReferenced(base, joins[..|joins| - 1], k);
    }
  }

  /** Every mentioned dataset has a table clause that lists the mentioned column. */
  ghost predicate KeepsAll(m: map<string, seq<string>>, refs: seq<ColumnRef>) {
    forall ref :: ref in refs ==> Keeps(m, ref)
  }

  ghost predicate Keeps(m: map<string, seq<string>>, ref: ColumnRef) {
    ref.dataset in m && ref.column in m[ref.dataset]
  }

  lemma RequiredKeepsAll(q: Query, m: map<string, seq<string>>)
    requires ExactlyRequired(m, q.dataset, References(q))
    ensures KeepsAll(m, q.columnRefs) && KeepsAll(m, JoinReferences(q.dataset, q.joins))
    ensures q.orderBy.Some? ==> Keeps(m, q.orderBy.value)
    ensures forall k :: 0 <= k < |q.joins| ==> q.joins[k].dataset in m
  {
    var refs := References(q);
    forall ref | ref in refs ensures Keeps(m, ref) {
      var k :| 0 <= k < |refs| && refs[k] == ref;
      assert Mentions(refs, ref.dataset);
    }
    forall k | 0 <= k < |q.joins| ensures q.joins[k].dataset in m {
      JoinReferenced(q.dataset, q.joins, k);
      assert Keeps(m, ColumnRef(q.joins[k].dataset, q.joins[k].rightColumn));
    }
    if q.orderBy.Some? {
      assert q.orderBy.value in refs;
    }
  }

  function Clauses(m: map<string, seq<string>>): map<string, TableClause> {
    map d | d in m :: TableClause(d, m[d])
  }

  method BuildFrom(m: map<string, seq<string>>, base: string, joins: seq<Join>) returns (selectable: From)
    requires base in m && forall k :: 0 <= k < |joins| ==> joins[k].dataset in m
    requires KeepsAll(m, JoinReferences(base, joins))
    ensures selectable == FromOf(m, base, joins)
  {
    var tables := Clauses(m);
    selectable := Scan(tables[base]);
    for i := 0 to |joins|
      invariant selectable == FromOf(m, base, joins[..i])
    {
      JoinReferenced(base, joins, i);
      var table := tables[joins[i].dataset];
      assert joins[..i + 1][..i] == joins[..i];
      selectable := JoinOn(selectable, table, ColumnOf(tables[base], joins[i].leftColumn),
                           ColumnOf(table, joins[i].rightColumn), joins[i].joinType.Left?);
    }
    assert joins[..|joins|] == joins;
  }

  method BuildColumns(q: Query, m: map<string, seq<string>>) returns (columns: seq<(ColumnRef, string)>)
    requires KeepsAll(m, q.columnRefs)
    ensures |columns| == |q.columnRefs|
    ensures forall k :: 0 <= k < |q.columnRefs| ==> columns[k] == (q.columnRefs[k], OutputLabels(q)[k])
  {
    columns := [];
    for i := 0 to |q.columnRefs|
      invariant |columns| == i
      invariant forall k :: 0 <= k < i ==> columns[k] == (q.columnRefs[k], OutputLabels(q)[k])
    {
      var ref := q.columnRefs[i];
      assert ref in q.columnRefs;
      var expression := ColumnOf(Clauses(m)[ref.dataset], ref.column);
      columns := columns + [(expression, if q.joins != [] then Label(ref) else ref.column)];
    }
  }

  /**
    No lookup fails: `ColumnOf` and the table map are only asked for what was required before.
    The statement has one labelled column per projected one, and the query's answers.
  */
  method BuildExploreSelectStatement(q: Query) returns (s: Select)
    ensures CompilesTo(q, s)
    ensures |s.columns| == |q.columnRefs|
    ensures forall k :: 0 <= k < |s.columns| ==> s.columns[k] == (q.columnRefs[k], OutputLabels(q)[k])
    ensures q.joins == [] ==>
              forall k :: 0 <= k < |s.columns| ==> s.columns[k] == (q.columnRefs[k], q.columnRefs[k].column)
    ensures q.joins != [] ==>
              forall k :: 0 <= k < |s.columns| ==>
                s.columns[k] == (q.columnRefs[k], q.columnRefs[k].dataset + "_" + q.columnRefs[k].column)
    ensures s.orderBy.Some? <==> q.orderBy.Some?
    ensures s.orderBy.Some? ==> s.orderBy.value == (q.orderBy.value, q.orderDirection)
    ensures s.limit == q.rowLimit
    ensures forall db, atMost, out :: StatementAnswers(db, s, atMost, out) <==> QueryAnswers(db, q, atMost, out)
  {
    var required := RequiredColumnsByDataset(q);
    RequiredKeepsAll(q, required);
    var selectable := BuildFrom(required, q.dataset, q.joins);
    var columns := BuildColumns(q, required);
    var order := None;
    if q.orderBy.Some? {
      order := Some((ColumnOf(Clauses(required)[q.orderBy.value.dataset], q.orderBy.value.column), q.orderDirection));
    }
    s := Select(columns, selectable, order, q.rowLimit);
    assert IsStatementOf(q, required, s);
    forall db, atMost, out ensures StatementAnswers(db, s, atMost, out) <==> QueryAnswers(db, q, atMost, out) {
      StatementMeansQuery(db, q, s, atMost, out);
    }
  }

  // ---------------------------------------------------------------- meaning

  /** SQL equality: NULL equals nothing. */
  predicate SqlEquals(a: Value, b: Value) {
    a != Null && b != Null && a == b
  }

  function RowCell(row: Row, column: string): Value {
    if column in row then row[column] else Null
  }

  function Cell(t: Tuple, ref: ColumnRef): Value {
    if ref.dataset in t && t[ref.dataset].Some? then RowCell(t[ref.dataset].value, ref.column) else Null
  }

  function RowsOf(db: Database, name: string): seq<Row> {
    if name in db then db[name] else []
  }

  function Matches(t: Tuple, rows: seq<Row>, left: ColumnRef, right: ColumnRef): seq<Tuple> {
    if rows == [] then []
    else
      (if SqlEquals(Cell(t, left), RowCell(rows[0], right.column)) then [t[right.dataset := Some(rows[0])]] else [])
      + Matches(t, rows[1..], left, right)
  }

  /** One left row joins every match, or itself alone under a left outer join without a match. */
  function JoinTuple(t: Tuple, rows: seq<Row>, left: ColumnRef, right: ColumnRef, isOuter: bool): seq<Tuple> {
    var found := Matches(t, rows, left, right);
    if found == [] && isOuter then [t[right.dataset := None]] else found
  }

  function JoinAll(ts: seq<Tuple>, rows: seq<Row>, left: ColumnRef, right: ColumnRef, isOuter: bool): seq<Tuple> {
    if ts == [] then []
    else JoinTuple(ts[0], rows, left, right, isOuter) + JoinAll(ts[1..], rows, left, right, isOuter)
  }

  function ScanTuples(name: string, rows: seq<Row>): seq<Tuple> {
    if rows == [] then [] else [map[name := Some(rows[0])]] + ScanTuples(name, rows[1..])
  }

  /** What a query means: joins over the full stored tables. */
  function QueryTuples(db: Database, base: string, joins: seq<Join>): seq<Tuple> {
    if joins == [] then ScanTuples(base, RowsOf(db, base))
    else
      var join := joins[|joins| - 1];
      JoinAll(QueryTuples(db, base, joins[..|joins| - 1]), RowsOf(db, join.dataset),
              ColumnRef(base, join.leftColumn), ColumnRef(join.dataset, join.rightColumn), join.joinType.Left?)
  }

  /** `row` is a match for `t` under the join condition, and joining it gives `t'`. */
  ghost predicate JoinsTo(t: Tuple, row: Row, left: ColumnRef, right: ColumnRef, t': Tuple) {
    SqlEquals(Cell(t, left), RowCell(row, right.column)) && t' == t[right.dataset := Some(row)]
  }

  ghost predicate HasMatch(t: Tuple, rows: seq<Row>, left: ColumnRef, right: ColumnRef) {
    exists row :: row in rows && SqlEquals(Cell(t, left), RowCell(row, right.column))
  }

  lemma {:induction false} MatchesMeaning(t: Tuple, rows: seq<Row>, left: ColumnRef, right: ColumnRef)
    ensures forall t' :: t' in Matches(t, rows, left, right) <==>
              exists row :: row in rows && JoinsTo(t, row, left, right, t')
    ensures Matches(t, rows, left, right) == [] <==> !HasMatch(t, rows, left, right)
  {
    if rows == [] {
    } else {
      MatchesMeaning(t, rows[1..], left, right);
      var rest := rows[1..];
      assert rows == [rows[0]] + rest;
      assert forall row :: row in rows <==> row == rows[0] || row in rest;
      if SqlEquals(Cell(t, left), RowCell(rows[0], right.column)) {
        var t0 := t[right.dataset := Some(rows[0])];
        assert JoinsTo(t, rows[0], left, right, t0);
        assert Matches(t, rows, left, right) == [t0] + Matches(t, rest, left, right);
      } else {
        assert forall t' :: !JoinsTo(t, rows[0], left, right, t');
        assert Matches(t, rows, left, right) == Matches(t, rest, left, right);
      }
    }
  }

  /** `t'` is `t` without a match, extended with NULLs by an outer join. */
  ghost predicate IsPadded(t: Tuple, rows: seq<Row>, left: ColumnRef, right: ColumnRef, isOuter: bool, t': Tuple) {
    isOuter && !HasMatch(t, rows, left, right) && t' == t[right.dataset := None]
  }

  /** A joined row of `t`: one of its matches or, in an outer join without any, `t` with NULLs. */
  ghost predicate IsJoinOf(
    t: Tuple, rows: seq<Row>, left: ColumnRef, right: ColumnRef, isOuter: bool, t': Tuple)
  {
    || (exists row :: row in rows && JoinsTo(t, row, left, right, t'))
    || IsPadded(t, rows, left, right, isOuter, t')
  }

  /** The join has exactly the rows SQL prescribes: inner matches, and outer rows without a match. */
  lemma {:induction false} JoinMeaning(
    ts: seq<Tuple>, rows: seq<Row>, left: ColumnRef, right: ColumnRef, isOuter: bool)
    ensures forall t' :: t' in JoinAll(ts, rows, left, right, isOuter) <==>
              exists t :: t in ts && IsJoinOf(t, rows, left, right, isOuter, t')
  {
    if ts == [] {
    } else {
      MatchesMeaning(ts[0], rows, left, right);
      JoinMeaning(ts[1..], rows, left, right, isOuter);
      assert ts == [ts[0]] + ts[1..];
      var first := JoinTuple(ts[0], rows, left, right, isOuter);
      assert forall t' :: t' in first <==> IsJoinOf(ts[0], rows, left, right, isOuter, t');
    }
  }

  /** All positions of a pair of rows. */
  function Grid(n: nat, m: nat): (g: set<(int, int)>)
    ensures forall x :: x in g <==> 0 <= x.0 < n && 0 <= x.1 < m
  {
    set i, k | 0 <= i < n && 0 <= k < m :: (i, k)
  }

  /** Pairs of a left and a right row that match and join to `t'`, from pair `(from, skip)` on. */
  ghost function MatchingPairs(
    ts: seq<Tuple>, rows: seq<Row>, left: ColumnRef, right: ColumnRef, t': Tuple, from: nat, skip: nat): set<(int, int)>
  {
    set x | x in Grid(|ts|, |rows|) && (x.0 > from || (x.0 == from && x.1 >= skip))
         && JoinsTo(ts[x.0], rows[x.1], left, right, t')
  }

  /** Left rows without a match that an outer join extends to `t'`. */
  ghost function UnmatchedRows(
    ts: seq<Tuple>, rows: seq<Row>, left: ColumnRef, right: ColumnRef, isOuter: bool, t': Tuple, from: nat): set<int>
  {
    set i | from <= i < |ts| && IsPadded(ts[i], rows, left, right, isOuter, t')
  }

  lemma NextPair(ts: seq<Tuple>, rows: seq<Row>, left: ColumnRef, right: ColumnRef, t': Tuple, i: nat, k: nat)
    requires i < |ts| && k < |rows|
    ensures |MatchingPairs(ts, rows, left, right, t', i, k)| ==
            |MatchingPairs(ts, rows, left, right, t', i, k + 1)|
            + if JoinsTo(ts[i], rows[k], left, right, t') then 1 else 0
  {
    var here, next := MatchingPairs(ts, rows, left, right, t', i, k), MatchingPairs(ts, rows, left, right, t', i, k + 1);
    assert here == if JoinsTo(ts[i], rows[k], left, right, t') then next + {(i as int, k as int)} else next;
  }

  lemma NextUnmatched(
    ts: seq<Tuple>, rows: seq<Row>, left: ColumnRef, right: ColumnRef, isOuter: bool, t': Tuple, i: nat)
    requires i < |ts|
    ensures |UnmatchedRows(ts, rows, left, right, isOuter, t', i)| ==
            |UnmatchedRows(ts, rows, left, right, isOuter, t', i + 1)|
            + if IsPadded(ts[i], rows, left, right, isOuter, t') then 1 else 0
  {
    var here := UnmatchedRows(ts, rows, left, right, isOuter, t', i);
    var next := UnmatchedRows(ts, rows, left, right, isOuter, t', i + 1);
    assert here == if IsPadded(ts[i], rows, left, right, isOuter, t') then next + {i as int} else next;
  }

  lemma NextMatch(t: Tuple, rows: seq<Row>, left: ColumnRef, right: ColumnRef, t': Tuple)
    requires rows != []
    ensures multiset(Matches(t, rows, left, right))[t'] ==
            multiset(Matches(t, rows[1..], left, right))[t'] + if JoinsTo(t, rows[0], left, right, t') then 1 else 0
  {
    var rest := Matches(t, rows[1..], left, right);
    if SqlEquals(Cell(t, left), RowCell(rows[0], right.column)) {
      var joined := t[right.dataset := Some(rows[0])];
      assert multiset([joined] + rest) == multiset{joined} + multiset(rest);
    } else {
      assert [] + rest == rest;
    }
  }

  lemma {:induction false} MatchesMultiplicity(
    ts: seq<Tuple>, rows: seq<Row>, left: ColumnRef, right: ColumnRef, t': Tuple, i: nat, k: nat)
    requires i < |ts| && k <= |rows|
    ensures multiset(Matches(ts[i], rows[k..], left, right))[t'] + |MatchingPairs(ts, rows, left, right, t', i + 1, 0)| ==
            |MatchingPairs(ts, rows, left, right, t', i, k)|
    decreases |rows| - k
  {
    if k == |rows| {
      assert MatchingPairs(ts, rows, left, right, t', i, k) == MatchingPairs(ts, rows, left, right, t', i + 1, 0);
    } else {
      MatchesMultiplicity(ts, rows, left, right, t', i, k + 1);
      NextPair(ts, rows, left, right, t', i, k);
      NextMatch(ts[i], rows[k..], left, right, t');
      assert rows[k..][1..] == rows[k + 1..];
    }
  }

  lemma JoinTupleMultiplicity(
    ts: seq<Tuple>, rows: seq<Row>, left: ColumnRef, right: ColumnRef, isOuter: bool, t': Tuple, i: nat)
    requires i < |ts|
    ensures multiset(JoinTuple(ts[i], rows, left, right, isOuter))[t']
            + |MatchingPairs(ts, rows, left, right, t', i + 1, 0)|
            + |UnmatchedRows(ts, rows, left, right, isOuter, t', i + 1)| ==
            |MatchingPairs(ts, rows, left, right, t', i, 0)| + |UnmatchedRows(ts, rows, left, right, isOuter, t', i)|
  {
    MatchesMultiplicity(ts, rows, left, right, t', i, 0);
    MatchesMeaning(ts[i], rows, left, right);
    NextUnmatched(ts, rows, left, right, isOuter, t', i);
    assert rows[0..] == rows;
  }

  lemma {:induction false} JoinMultiplicityFrom(
    ts: seq<Tuple>, rows: seq<Row>, left: ColumnRef, right: ColumnRef, isOuter: bool, t': Tuple, i: nat)
    requires i <= |ts|
    ensures multiset(JoinAll(ts[i..], rows, left, right, isOuter))[t'] ==
            |MatchingPairs(ts, rows, left, right, t', i, 0)| + |UnmatchedRows(ts, rows, left, right, isOuter, t', i)|
    decreases |ts| - i
  {
    if i == |ts| {
      assert MatchingPairs(ts, rows, left, right, t', i, 0) == {};
      assert UnmatchedRows(ts, rows, left, right, isOuter, t', i) == {};
    } else {
      JoinMultiplicityFrom(ts, rows, left, right, isOuter, t', i + 1);
      JoinTupleMultiplicity(ts, rows, left, right, isOuter, t', i);
      assert ts[i..][0] == ts[i] && ts[i..][1..] == ts[i + 1..];
      var first, rest := JoinTuple(ts[i], rows, left, right, isOuter), JoinAll(ts[i + 1..], rows, left, right, isOuter);
      assert multiset(first + rest) == multiset(first) + multiset(rest);
    }
  }

  /** The join has each row exactly as often as SQL prescribes: once per matching pair and per unmatched left row. */
  lemma JoinMultiplicity(
    ts: seq<Tuple>, rows: seq<Row>, left: ColumnRef, right: ColumnRef, isOuter: bool, t': Tuple)
    ensures multiset(JoinAll(ts, rows, left, right, isOuter))[t'] ==
            |MatchingPairs(ts, rows, left, right, t', 0, 0)| + |UnmatchedRows(ts, rows, left, right, isOuter, t', 0)|
  {
    JoinMultiplicityFrom(ts, rows, left, right, isOuter, t', 0);
    assert ts[0..] == ts;
  }

  function Restrict(row: Row, columns: seq<string>): Row {
    map c | c in row && c in columns :: row[c]
  }

  function ClauseRows(db: Database, table: TableClause): seq<Row> {
    var rows := RowsOf(db, table.name);
    seq(|rows|, i requires 0 <= i < |rows| => Restrict(rows[i], table.columns))
  }

  /** What a compiled FROM clause means: joins over the rows its table clauses expose. */
  function FromTuples(db: Database, from: From): seq<Tuple> {
    match from
    case Scan(table) => ScanTuples(table.name, ClauseRows(db, table))
    case JoinOn(source, table, left, right, isOuter) =>
      JoinAll(FromTuples(db, source), ClauseRows(db, table), left, right, isOuter)
  }

  ghost predicate IsPermutation(p: seq<nat>, n: nat) {
    |p| == n && NoDuplicates(p) && forall k :: 0 <= k < n ==> p[k] < n
  }

  /** `atMost` is whatever order the database puts values in, NULLs included. */
  ghost predicate InOrder(
    ts: seq<Tuple>, p: seq<nat>, order: Option<(ColumnRef, SortDirection)>, atMost: (Value, Value) -> bool)
    requires IsPermutation(p, |ts|)
  {
    order.Some? ==>
      forall i, j :: 0 <= i < j < |p| ==>
        var a, b := Cell(ts[p[i]], order.value.0), Cell(ts[p[j]], order.value.0);
        if order.value.1.Asc? then atMost(a, b) else atMost(b, a)
  }

  function Project(t: Tuple, refs: seq<ColumnRef>): seq<Value> {
    seq(|refs|, i requires 0 <= i < |refs| => Cell(t, refs[i]))
  }

  /**
    The answers SQL allows: any arrangement of the joined rows that respects ORDER BY,
    cut at LIMIT and projected. Ties and unordered results leave several legal answers.
  */
  ghost predicate LegalAnswer(
    ts: seq<Tuple>, refs: seq<ColumnRef>, order: Option<(ColumnRef, SortDirection)>, limit: nat,
    atMost: (Value, Value) -> bool, out: seq<seq<Value>>)
  {
    exists p :: IsPermutation(p, |ts|) && InOrder(ts, p, order, atMost) && IsCut(ts, p, refs, limit, out)
  }

  ghost predicate IsCut(ts: seq<Tuple>, p: seq<nat>, refs: seq<ColumnRef>, limit: nat, out: seq<seq<Value>>)
    requires IsPermutation(p, |ts|)
  {
    |out| == Min(limit, |ts|) && forall k :: 0 <= k < |out| ==> out[k] == Project(ts[p[k]], refs)
  }

  /** Answers of a query on the stored tables, and of a statement on what its clauses expose. */
  ghost predicate QueryAnswers(db: Database, q: Query, atMost: (Value, Value) -> bool, out: seq<seq<Value>>) {
    LegalAnswer(QueryTuples(db, q.dataset, q.joins), q.columnRefs,
                if q.orderBy.Some? then Some((q.orderBy.value, q.orderDirection)) else None,
                q.rowLimit, atMost, out)
  }

  ghost predicate StatementAnswers(db: Database, s: Select, atMost: (Value, Value) -> bool, out: seq<seq<Value>>) {
    LegalAnswer(FromTuples(db, s.from), seq(|s.columns|, i requires 0 <= i < |s.columns| => s.columns[i].0),
                s.orderBy, s.limit, atMost, out)
  }

  // ---------------------------------------------------------------- the meaning, on rows and columns

  /** Two stored rows match: both join columns hold values, and the same. */
  predicate Matched(l: Row, r: Row, join: Join) {
    && join.leftColumn in l && join.rightColumn in r
    && l[join.leftColumn] != Null && l[join.leftColumn] == r[join.rightColumn]
  }

  ghost predicate ComesFromPair(db: Database, base: string, join: Join, l: Row, t: Tuple) {
    exists r :: r in RowsOf(db, join.dataset) && Matched(l, r, join) && t == map[base := Some(l), join.dataset := Some(r)]
  }

  ghost predicate ComesFromLeftAlone(db: Database, base: string, join: Join, l: Row, t: Tuple) {
    && join.joinType == JoinType.Left
    && (forall r :: r in RowsOf(db, join.dataset) ==> !Matched(l, r, join))
    && t == map[base := Some(l), join.dataset := None]
  }

  lemma {:induction false} ScanMeaning(name: string, rows: seq<Row>)
    ensures forall t :: t in ScanTuples(name, rows) <==> exists l :: l in rows && t == map[name := Some(l)]
  {
    if rows == [] {
    } else {
      ScanMeaning(name, rows[1..]);
      assert rows == [rows[0]] + rows[1..];
    }
  }

  /** The rows an admissible query ranges over, for the two shapes it can have. */
  lemma QueryTuplesMeaning(db: Database, base: string, joins: seq<Join>)
    requires |joins| <= 1 && forall k :: 0 <= k < |joins| ==> joins[k].dataset != base
    ensures joins == [] ==>
              forall t :: t in QueryTuples(db, base, joins) <==>
                exists l :: l in RowsOf(db, base) && t == map[base := Some(l)]
    ensures joins != [] ==>
              forall t :: t in QueryTuples(db, base, joins) <==>
                exists l :: l in RowsOf(db, base)
                  && (ComesFromPair(db, base, joins[0], l, t) || ComesFromLeftAlone(db, base, joins[0], l, t))
  {
    var rows := RowsOf(db, base);
    ScanMeaning(base, rows);
    if joins != [] {
      var join := joins[0];
      var left, right := ColumnRef(base, join.leftColumn), ColumnRef(join.dataset, join.rightColumn);
      var ts, isOuter := ScanTuples(base, rows), join.joinType.Left?;
      assert joins[..0] == [] && QueryTuples(db, base, []) == ts;
      JoinMeaning(ts, RowsOf(db, join.dataset), left, right, isOuter);
      forall l, t' ensures IsJoinOf(map[base := Some(l)], RowsOf(db, join.dataset), left, right, isOuter, t') <==>
                           ComesFromPair(db, base, join, l, t') || ComesFromLeftAlone(db, base, join, l, t')
      {
        OneLeftRow(db, base, join, l, t');
      }
      forall t' ensures t' in QueryTuples(db, base, joins) <==>
                        exists l :: l in rows
                          && (ComesFromPair(db, base, join, l, t') || ComesFromLeftAlone(db, base, join, l, t'))
      {
        if exists l :: l in rows && (ComesFromPair(db, base, join, l, t') || ComesFromLeftAlone(db, base, join, l, t')) {
          var l :| l in rows && (ComesFromPair(db, base, join, l, t') || ComesFromLeftAlone(db, base, join, l, t'));
          assert map[base := Some(l)] in ts;
        }
      }
    }
  }

  lemma OneLeftRow(db: Database, base: string, join: Join, l: Row, t': Tuple)
    requires join.dataset != base
    ensures var left, right := ColumnRef(base, join.leftColumn), ColumnRef(join.dataset, join.rightColumn);
            IsJoinOf(map[base := Some(l)], RowsOf(db, join.dataset), left, right, join.joinType.Left?, t') <==>
            ComesFromPair(db, base, join, l, t') || ComesFromLeftAlone(db, base, join, l, t')
  {
    var left, right := ColumnRef(base, join.leftColumn), ColumnRef(join.dataset, join.rightColumn);
    var t: Tuple := map[base := Some(l)];
    assert forall r :: SqlEquals(Cell(t, left), RowCell(r, right.column)) <==> Matched(l, r, join);
    assert forall x :: t[right.dataset := x] == map[base := Some(l), join.dataset := x];
  }

  /** `v` is the value of a column in a joined row, NULL where the row has none. */
  predicate IsCellOf(t: Tuple, ref: ColumnRef, v: Value) {
    if ref.dataset in t && t[ref.dataset].Some? && ref.column in t[ref.dataset].value
    then v == t[ref.dataset].value[ref.column] else v == Null
  }

  predicate IsRowOf(t: Tuple, refs: seq<ColumnRef>, row: seq<Value>) {
    |row| == |refs| && forall k :: 0 <= k < |refs| ==> IsCellOf(t, refs[k], row[k])
  }

  predicate Sorted(v: Value, w: Value, direction: SortDirection, atMost: (Value, Value) -> bool) {
    match direction case Asc => atMost(v, w) case Desc => atMost(w, v)
  }

  lemma {:induction false} PermutationHits(p: seq<nat>, n: nat, x: nat)
    requires IsPermutation(p, n) && x < n
    ensures x in p
  {
    DistinctCount(p);
    assert Elements(p) <= Below(n);
    SameSizeIsAll(Elements(p), Below(n));
    assert x in Below(n);
  }

  function Below(n: nat): (s: set<nat>)
    ensures forall i: nat :: i in s <==> i < n
    ensures |s| == n
  {
    if n == 0 then {} else Below(n - 1) + {n - 1}
  }

  lemma {:induction false} SameSizeIsAll(a: set<nat>, b: set<nat>)
    requires a <= b && |a| == |b|
    ensures a == b
  {
    if b == {} {
    } else if a != b {
      var x :| x in b && x !in a;
      SubsetSize(a, b - {x});
    }
  }

  lemma {:induction false} SubsetSize(a: set<nat>, b: set<nat>)
    requires a <= b
    ensures |a| <= |b|
  {
    if a == {} {
    } else {
      var x :| x in a;
      SubsetSize(a - {x}, b - {x});
    }
  }

  ghost predicate IsRowOfSome(ts: seq<Tuple>, refs: seq<ColumnRef>, row: seq<Value>) {
    exists t :: t in ts && IsRowOf(t, refs, row)
  }

  /**
    What an answer of a query is: at most `limit` rows, each the projection of a joined row; in
    ORDER BY order; and a joined row that is left out does not belong before any row that is kept.
  */
  lemma AnswerMeaning(db: Database, q: Query, atMost: (Value, Value) -> bool, out: seq<seq<Value>>)
    requires QueryAnswers(db, q, atMost, out)
    ensures var ts := QueryTuples(db, q.dataset, q.joins);
            && |out| == Min(q.rowLimit, |ts|)
            && (forall i :: 0 <= i < |out| ==> |out[i]| == |q.columnRefs| && IsRowOfSome(ts, q.columnRefs, out[i]))
    ensures forall k :: 0 <= k < |q.columnRefs| && q.orderBy == Some(q.columnRefs[k]) ==>
              && (forall i, j :: 0 <= i < j < |out| ==> Sorted(out[i][k], out[j][k], q.orderDirection, atMost))
              && (forall t :: t in QueryTuples(db, q.dataset, q.joins) ==> IsKeptOrLater(t, q, k, out, atMost))
  {
    var ts := QueryTuples(db, q.dataset, q.joins);
    var order := if q.orderBy.Some? then Some((q.orderBy.value, q.orderDirection)) else None;
    var p :| IsPermutation(p, |ts|) && InOrder(ts, p, order, atMost) && IsCut(ts, p, q.columnRefs, q.rowLimit, out);
    AnswerRows(ts, p, q.columnRefs, q.rowLimit, out);
    forall k | 0 <= k < |q.columnRefs| && q.orderBy == Some(q.columnRefs[k])
      ensures forall i, j :: 0 <= i < j < |out| ==> Sorted(out[i][k], out[j][k], q.orderDirection, atMost)
      ensures forall t :: t in ts ==> IsKeptOrLater(t, q, k, out, atMost)
    {
      AnswerOrder(ts, p, q, k, atMost, out);
      forall t | t in ts ensures IsKeptOrLater(t, q, k, out, atMost) {
        AnswerKeepsFirst(ts, p, q, k, atMost, out, t);
      }
    }
  }

  /** A joined row is among the answer, or belongs behind all of it. */
  ghost predicate IsKeptOrLater(t: Tuple, q: Query, k: int, out: seq<seq<Value>>, atMost: (Value, Value) -> bool)
    requires 0 <= k < |q.columnRefs| && forall i :: 0 <= i < |out| ==> |out[i]| == |q.columnRefs|
  {
    || (exists i :: 0 <= i < |out| && IsRowOf(t, q.columnRefs, out[i]))
    || (forall i :: 0 <= i < |out| ==> Sorted(out[i][k], Project(t, q.columnRefs)[k], q.orderDirection, atMost))
  }

  lemma ProjectMeaning(t: Tuple, refs: seq<ColumnRef>)
    ensures IsRowOf(t, refs, Project(t, refs))
  {
  }

  lemma AnswerRows(ts: seq<Tuple>, p: seq<nat>, refs: seq<ColumnRef>, limit: nat, out: seq<seq<Value>>)
    requires IsPermutation(p, |ts|) && IsCut(ts, p, refs, limit, out)
    ensures forall i :: 0 <= i < |out| ==> |out[i]| == |refs| && IsRowOfSome(ts, refs, out[i])
  {
    forall i | 0 <= i < |out| ensures |out[i]| == |refs| && IsRowOfSome(ts, refs, out[i]) {
      ProjectMeaning(ts[p[i]], refs);
      assert ts[p[i]] in ts && out[i] == Project(ts[p[i]], refs);
    }
  }

  lemma AnswerOrder(
    ts: seq<Tuple>, p: seq<nat>, q: Query, k: int, atMost: (Value, Value) -> bool, out: seq<seq<Value>>)
    requires IsPermutation(p, |ts|) && IsCut(ts, p, q.columnRefs, q.rowLimit, out)
    requires 0 <= k < |q.columnRefs| && InOrder(ts, p, Some((q.columnRefs[k], q.orderDirection)), atMost)
    ensures forall i, j :: 0 <= i < j < |out| ==> Sorted(out[i][k], out[j][k], q.orderDirection, atMost)
  {
    forall i, j | 0 <= i < j < |out| ensures Sorted(out[i][k], out[j][k], q.orderDirection, atMost) {
      assert out[i][k] == Cell(ts[p[i]], q.columnRefs[k]) && out[j][k] == Cell(ts[p[j]], q.columnRefs[k]);
    }
  }

  lemma AnswerKeepsFirst(
    ts: seq<Tuple>, p: seq<nat>, q: Query, k: int, atMost: (Value, Value) -> bool, out: seq<seq<Value>>, t: Tuple)
    requires IsPermutation(p, |ts|) && IsCut(ts, p, q.columnRefs, q.rowLimit, out) && t in ts
    requires 0 <= k < |q.columnRefs| && InOrder(ts, p, Some((q.columnRefs[k], q.orderDirection)), atMost)
    ensures forall i :: 0 <= i < |out| ==> |out[i]| == |q.columnRefs|
    ensures IsKeptOrLater(t, q, k, out, atMost)
  {
    var x :| 0 <= x < |ts| && ts[x] == t;
    PermutationHits(p, |ts|, x);
    var j :| 0 <= j < |p| && p[j] == x;
    if j < |out| {
      ProjectMeaning(t, q.columnRefs);
      assert out[j] == Project(t, q.columnRefs);
    } else {
      forall i | 0 <= i < |out| ensures Sorted(out[i][k], Project(t, q.columnRefs)[k], q.orderDirection, atMost) {
        assert out[i][k] == Cell(ts[p[i]], q.columnRefs[k]);
      }
    }
  }

  /** A table clause exposes the stored rows in order, with exactly the listed columns of each. */
  lemma ClauseRowsMeaning(db: Database, table: TableClause)
    ensures |ClauseRows(db, table)| == |RowsOf(db, table.name)|
    ensures forall i, c :: 0 <= i < |RowsOf(db, table.name)| ==>
              var shown, stored := ClauseRows(db, table)[i], RowsOf(db, table.name)[i];
              && (c in shown <==> c in stored && c in table.columns)
              && (c in shown ==> shown[c] == stored[c])
  {
  }

  // ---------------------------------------------------------------- pruning preserves meaning

  function PruneTuple(t: Tuple, m: map<string, seq<string>>): Tuple {
    map d | d in t ::
      if t[d].Some? then Some(Restrict(t[d].value, if d in m then m[d] else [])) else None
  }

  function PruneAll(ts: seq<Tuple>, m: map<string, seq<string>>): seq<Tuple> {
    if ts == [] then [] else [PruneTuple(ts[0], m)] + PruneAll(ts[1..], m)
  }

  function PruneRows(rows: seq<Row>, columns: seq<string>): seq<Row> {
    if rows == [] then [] else [Restrict(rows[0], columns)] + PruneRows(rows[1..], columns)
  }

  lemma PruneKeepsCell(t: Tuple, m: map<string, seq<string>>, ref: ColumnRef)
    requires ref.dataset in m && ref.column in m[ref.dataset]
    ensures Cell(PruneTuple(t, m), ref) == Cell(t, ref)
  {
  }

  lemma {:induction false} PruneAllMeaning(ts: seq<Tuple>, m: map<string, seq<string>>)
    ensures |PruneAll(ts, m)| == |ts|
    ensures forall k :: 0 <= k < |ts| ==> PruneAll(ts, m)[k] == PruneTuple(ts[k], m)
  {
    if ts == [] {
    } else {
      PruneAllMeaning(ts[1..], m);
    }
  }

  lemma {:induction false} PruneAllConcat(xs: seq<Tuple>, ys: seq<Tuple>, m: map<string, seq<string>>)
    ensures PruneAll(xs + ys, m) == PruneAll(xs, m) + PruneAll(ys, m)
  {
    if xs == [] {
      assert xs + ys == ys;
    } else {
      PruneAllConcat(xs[1..], ys, m);
      assert (xs + ys)[1..] == xs[1..] + ys;
      ConcatAssociates([PruneTuple(xs[0], m)], PruneAll(xs[1..], m), PruneAll(ys, m));
    }
  }

  lemma {:induction false} PruneRowsMeaning(db: Database, table: TableClause)
    ensures ClauseRows(db, table) == PruneRows(RowsOf(db, table.name), table.columns)
  {
    PruneRowsAt(RowsOf(db, table.name), table.columns);
  }

  lemma {:induction false} PruneRowsAt(rows: seq<Row>, columns: seq<string>)
    ensures |PruneRows(rows, columns)| == |rows|
    ensures forall k :: 0 <= k < |rows| ==> PruneRows(rows, columns)[k] == Restrict(rows[k], columns)
  {
    if rows == [] {
    } else {
      PruneRowsAt(rows[1..], columns);
    }
  }

  lemma {:induction false} MatchesPrune(
    t: Tuple, rows: seq<Row>, left: ColumnRef, right: ColumnRef, m: map<string, seq<string>>)
    requires Keeps(m, left) && Keeps(m, right)
    ensures Matches(PruneTuple(t, m), PruneRows(rows, m[right.dataset]), left, right) ==
            PruneAll(Matches(t, rows, left, right), m)
  {
    if rows == [] {
    } else {
      MatchesPrune(t, rows[1..], left, right, m);
      PruneKeepsCell(t, m, left);
      var one := t[right.dataset := Some(rows[0])];
      assert PruneTuple(one, m) == PruneTuple(t, m)[right.dataset := Some(Restrict(rows[0], m[right.dataset]))];
      var head := if SqlEquals(Cell(t, left), RowCell(rows[0], right.column)) then [one] else [];
      PruneAllConcat(head, Matches(t, rows[1..], left, right), m);
      assert PruneRows(rows, m[right.dataset])[1..] == PruneRows(rows[1..], m[right.dataset]);
    }
  }

  lemma {:induction false} JoinAllPrune(
    ts: seq<Tuple>, rows: seq<Row>, left: ColumnRef, right: ColumnRef, isOuter: bool, m: map<string, seq<string>>)
    requires Keeps(m, left) && Keeps(m, right)
    ensures JoinAll(PruneAll(ts, m), PruneRows(rows, m[right.dataset]), left, right, isOuter) ==
            PruneAll(JoinAll(ts, rows, left, right, isOuter), m)
  {
    if ts == [] {
    } else {
      var t := ts[0];
      MatchesPrune(t, rows, left, right, m);
      PruneAllMeaning(Matches(t, rows, left, right), m);
      assert PruneTuple(t[right.dataset := None], m) == PruneTuple(t, m)[right.dataset := None];
      JoinAllPrune(ts[1..], rows, left, right, isOuter, m);
      PruneAllConcat(JoinTuple(t, rows, left, right, isOuter), JoinAll(ts[1..], rows, left, right, isOuter), m);
      assert PruneAll(ts, m)[1..] == PruneAll(ts[1..], m);
    }
  }

  lemma {:induction false} ScanPrune(name: string, rows: seq<Row>, m: map<string, seq<string>>)
    requires name in m
    ensures ScanTuples(name, PruneRows(rows, m[name])) == PruneAll(ScanTuples(name, rows), m)
  {
    if rows == [] {
    } else {
      ScanPrune(name, rows[1..], m);
      assert PruneTuple(map[name := Some(rows[0])], m) == map[name := Some(Restrict(rows[0], m[name]))];
      assert PruneRows(rows, m[name])[1..] == PruneRows(rows[1..], m[name]);
    }
  }

  /** The compiled FROM clause yields the query's joined rows with the unused columns removed. */
  lemma {:induction false} FromIsPrunedQuery(db: Database, m: map<string, seq<string>>, base: string, joins: seq<Join>)
    requires base in m && forall k :: 0 <= k < |joins| ==> joins[k].dataset in m
    requires KeepsAll(m, JoinReferences(base, joins))
    ensures FromTuples(db, FromOf(m, base, joins)) == PruneAll(QueryTuples(db, base, joins), m)
  {
    if joins == [] {
      PruneRowsMeaning(db, TableClause(base, m[base]));
      ScanPrune(base, RowsOf(db, base), m);
    } else {
      var n := |joins| - 1;
      var join := joins[n];
      FromIsPrunedQuery(db, m, base, joins[..n]);
      JoinReferenced(base, joins, n);
      PruneRowsMeaning(db, TableClause(join.dataset, m[join.dataset]));
      JoinAllPrune(QueryTuples(db, base, joins[..n]), RowsOf(db, join.dataset),
                   ColumnRef(base, join.leftColumn), ColumnRef(join.dataset, join.rightColumn),
                   join.joinType.Left?, m);
    }
  }

  /** Any arrangement is as good on pruned rows as on full rows when every cell read is kept. */
  lemma ArrangementsAgree(
    ts: seq<Tuple>, m: map<string, seq<string>>, p: seq<nat>, refs: seq<ColumnRef>,
    order: Option<(ColumnRef, SortDirection)>, limit: nat, atMost: (Value, Value) -> bool, out: seq<seq<Value>>)
    requires IsPermutation(p, |ts|) && |PruneAll(ts, m)| == |ts|
    requires KeepsAll(m, refs)
    requires order.Some? ==> Keeps(m, order.value.0)
    ensures InOrder(PruneAll(ts, m), p, order, atMost) <==> InOrder(ts, p, order, atMost)
    ensures IsCut(PruneAll(ts, m), p, refs, limit, out) <==> IsCut(ts, p, refs, limit, out)
  {
    PruneAllMeaning(ts, m);
    forall k | 0 <= k < |ts| ensures Project(PruneAll(ts, m)[k], refs) == Project(ts[k], refs) {
      forall i | 0 <= i < |refs| ensures Cell(PruneTuple(ts[k], m), refs[i]) == Cell(ts[k], refs[i]) {
        assert refs[i] in refs;
        PruneKeepsCell(ts[k], m, refs[i]);
      }
    }
    if order.Some? {
      forall k | 0 <= k < |ts| ensures Cell(PruneAll(ts, m)[k], order.value.0) == Cell(ts[k], order.value.0) {
        PruneKeepsCell(ts[k], m, order.value.0);
      }
    }
  }

  /**
    Compilation is correct: for every database and every value order, the statement run on
    its pruned table clauses has exactly the answers the query has on the stored tables.
  */
  lemma StatementMeansQuery(
    db: Database, q: Query, s: Select, atMost: (Value, Value) -> bool, out: seq<seq<Value>>)
    requires CompilesTo(q, s)
    ensures StatementAnswers(db, s, atMost, out) <==> QueryAnswers(db, q, atMost, out)
  {
    var m :| IsStatementOf(q, m, s);
    RequiredKeepsAll(q, m);
    FromIsPrunedQuery(db, m, q.dataset, q.joins);
    var ts := QueryTuples(db, q.dataset, q.joins);
    PruneAllMeaning(ts, m);
    var refs := seq(|s.columns|, i requires 0 <= i < |s.columns| => s.columns[i].0);
    assert refs == q.columnRefs;
    forall p | IsPermutation(p, |ts|)
      ensures InOrder(PruneAll(ts, m), p, s.orderBy, atMost) <==> InOrder(ts, p, s.orderBy, atMost)
      ensures IsCut(PruneAll(ts, m), p, refs, s.limit, out) <==> IsCut(ts, p, refs, s.limit, out)
    {
      ArrangementsAgree(ts, m, p, refs, s.orderBy, s.limit, atMost, out);
    }
  }

  // ---------------------------------------------------------------- answers exist

  /** The order of values is total: any two compare, and comparisons chain. */
  ghost predicate IsTotalOrder(atMost: (Value, Value) -> bool) {
    && (forall a, b :: atMost(a, b) || atMost(b, a))
    && (forall a, b, c :: atMost(a, b) && atMost(b, c) ==> atMost(a, c))
  }

  /** Tuple `a` may stand before tuple `b`. */
  predicate MayPrecede(a: Tuple, b: Tuple, order: Option<(ColumnRef, SortDirection)>, atMost: (Value, Value) -> bool) {
    order.Some? ==>
      var x, y := Cell(a, order.value.0), Cell(b, order.value.0);
      if order.value.1.Asc? then atMost(x, y) else atMost(y, x)
  }

  /** `p` arranges the first `n` tuples. */
  ghost predicate Arranges(
    p: seq<nat>, n: nat, ts: seq<Tuple>, order: Option<(ColumnRef, SortDirection)>, atMost: (Value, Value) -> bool)
    requires n <= |ts|
  {
    && IsPermutation(p, n)
    && forall i, j :: 0 <= i < j < n ==> MayPrecede(ts[p[i]], ts[p[j]], order, atMost)
  }

  /** Any rows can be arranged by any total order: insert them one by one. */
  lemma {:induction false} ArrangementExists(
    ts: seq<Tuple>, n: nat, order: Option<(ColumnRef, SortDirection)>, atMost: (Value, Value) -> bool)
    returns (p: seq<nat>)
    requires n <= |ts| && IsTotalOrder(atMost)
    ensures Arranges(p, n, ts, order, atMost)
  {
    if n == 0 {
      p := [];
    } else {
      var before := ArrangementExists(ts, n - 1, order, atMost);
      var k := 0;
      while k < n - 1 && !MayPrecede(ts[n - 1], ts[before[k]], order, atMost)
        invariant 0 <= k <= n - 1
        invariant forall i :: 0 <= i < k ==> MayPrecede(ts[before[i]], ts[n - 1], order, atMost)
      {
        k := k + 1;
      }
      InsertionArranges(ts, n - 1, before, k, order, atMost);
      p := before[..k] + [n - 1] + before[k..];
    }
  }

  lemma InsertionArranges(
    ts: seq<Tuple>, n: nat, before: seq<nat>, k: nat,
    order: Option<(ColumnRef, SortDirection)>, atMost: (Value, Value) -> bool)
    requires n < |ts| && k <= n && IsTotalOrder(atMost) && Arranges(before, n, ts, order, atMost)
    requires forall i :: 0 <= i < k ==> MayPrecede(ts[before[i]], ts[n], order, atMost)
    requires k < n ==> MayPrecede(ts[n], ts[before[k]], order, atMost)
    ensures Arranges(before[..k] + [n] + before[k..], n + 1, ts, order, atMost)
  {
    var p := before[..k] + [n] + before[k..];
    assert forall i :: 0 <= i < n + 1 ==> p[i] == if i < k then before[i] else if i == k then n else before[i - 1];
    forall i, j | 0 <= i < j < n + 1 ensures MayPrecede(ts[p[i]], ts[p[j]], order, atMost) {
      if i == k && j > k + 1 {
        assert MayPrecede(ts[before[k]], ts[before[j - 1]], order, atMost);
      }
    }
  }

  /** On every database and for every total order of values, every compiled query has a legal answer. */
  lemma StatementHasAnswer(db: Database, q: Query, s: Select, atMost: (Value, Value) -> bool)
    returns (out: seq<seq<Value>>)
    requires CompilesTo(q, s) && IsTotalOrder(atMost)
    ensures StatementAnswers(db, s, atMost, out) && QueryAnswers(db, q, atMost, out)
  {
    var ts := QueryTuples(db, q.dataset, q.joins);
    var order := if q.orderBy.Some? then Some((q.orderBy.value, q.orderDirection)) else None;
    var p := ArrangementExists(ts, |ts|, order, atMost);
    out := seq(Min(q.rowLimit, |ts|), k requires 0 <= k < Min(q.rowLimit, |ts|) => Project(ts[p[k]], q.columnRefs));
    assert InOrder(ts, p, order, atMost) by {
      assert forall i, j :: 0 <= i < j < |p| ==> MayPrecede(ts[p[i]], ts[p[j]], order, atMost);
    }
    assert IsCut(ts, p, q.columnRefs, q.rowLimit, out);
    StatementMeansQuery(db, q, s, atMost, out);
  }

  // ---------------------------------------------------------------- accepted queries

  /** The table clauses of a FROM clause. */
  function TablesOf(from: From): seq<TableClause> {
    match from
    case Scan(table) => [table]
    case JoinOn(source, table, _, _, _) => TablesOf(source) + [table]
  }

  ghost predicate Reads(s: Select, dataset: string) {
    exists t :: t in TablesOf(s.from) && t.name == dataset
  }

  lemma {:induction false} TablesOfFrom(m: map<string, seq<string>>, base: string, joins: seq<Join>)
    requires base in m && forall k :: 0 <= k < |joins| ==> joins[k].dataset in m
    ensures forall t :: t in TablesOf(FromOf(m, base, joins)) ==> t.name in m && t.columns == m[t.name]
    ensures forall t :: t in TablesOf(FromOf(m, base, joins)) ==>
              t.name == base || exists k :: 0 <= k < |joins| && joins[k].dataset == t.name
    ensures TableClause(base, m[base]) in TablesOf(FromOf(m, base, joins))
    ensures forall k :: 0 <= k < |joins| ==>
              TableClause(joins[k].dataset, m[joins[k].dataset]) in TablesOf(FromOf(m, base, joins))
  {
    if joins == [] {
    } else {
      TablesOfFrom(m, base, joins[..|joins| - 1]);
    }
  }

  lemma TablesAreDistinct(m: map<string, seq<string>>, base: string, joins: seq<Join>)
    requires base in m && |joins| <= 1 && forall k :: 0 <= k < |joins| ==> joins[k].dataset in m && joins[k].dataset != base
    ensures NoDuplicates(TablesOf(FromOf(m, base, joins))) && |TablesOf(FromOf(m, base, joins))| <= 2
  {
    if |joins| == 1 {
      assert joins[..0] == [];
      var joined := TableClause(joins[0].dataset, m[joins[0].dataset]);
      assert TablesOf(FromOf(m, base, joins)) == [TableClause(base, m[base]), joined];
    }
  }

  /**
    For an accepted query the statement reads exactly the datasets in scope, so no table
    enters the FROM clause uninvited, and every column it reads is one the catalog knows.
  */
  lemma AcceptedQueryResolves(catalog: Catalog, q: Query, s: Select)
    requires Acceptable(catalog, q) && CompilesTo(q, s)
    ensures forall d :: Reads(s, d) <==> InScope(q, d)
    ensures NoDuplicates(TablesOf(s.from)) && |TablesOf(s.from)| <= 2
    ensures forall t, c :: t in TablesOf(s.from) && c in t.columns ==> t.name in catalog && c in catalog[t.name].columns
  {
    var m :| IsStatementOf(q, m, s);
    TablesOfFrom(m, q.dataset, q.joins);
    TablesAreDistinct(m, q.dataset, q.joins);
    RequiredColumnsAreKnown(catalog, q, m);
    forall d | InScope(q, d) ensures Reads(s, d) {
      assert TableClause(d, m[d]) in TablesOf(s.from);
    }
  }

  lemma RequiredColumnsAreKnown(catalog: Catalog, q: Query, m: map<string, seq<string>>)
    requires Acceptable(catalog, q) && ExactlyRequired(m, q.dataset, References(q))
    ensures forall d :: d in m <==> InScope(q, d)
    ensures forall d, c :: d in m && c in m[d] ==> HasColumn(catalog, ColumnRef(d, c))
  {
    var refs := References(q);
    forall ref | ref in refs ensures InScope(q, ref.dataset) && HasColumn(catalog, ref) {
      if ref in JoinReferences(q.dataset, q.joins) {
        JoinReferencesAllowed(catalog, q.dataset, q.joins, ref);
      } else if ref in q.columnRefs {
        var k :| 0 <= k < |q.columnRefs| && q.columnRefs[k] == ref;
        assert Selectable(catalog, q, q.columnRefs[k]);
      }
    }
    forall d ensures d in m <==> InScope(q, d) {
      if Mentions(refs, d) {
        var k :| 0 <= k < |refs| && refs[k].dataset == d;
        assert refs[k] in refs;
      }
    }
    forall d, c | d in m && c in m[d] ensures HasColumn(catalog, ColumnRef(d, c)) {
      assert ColumnRef(d, c) in refs;
    }
  }

  lemma {:induction false} JoinReferencesAllowed(catalog: Catalog, base: string, joins: seq<Join>, ref: ColumnRef)
    requires forall k :: 0 <= k < |joins| ==> JoinAllowed(catalog, base, joins[k])
    requires ref in JoinReferences(base, joins)
    ensures HasColumn(catalog, ref)
    ensures ref.dataset == base || exists k :: 0 <= k < |joins| && joins[k].dataset == ref.dataset
  {
    var n := |joins| - 1;
    assert JoinAllowed(catalog, base, joins[n]);
    if ref !in JoinReferences(base, joins[..n]) {
    } else {
      JoinReferencesAllowed(catalog, base, joins[..n], ref);
      if ref.dataset != base {
        var k :| 0 <= k < n && joins[..n][k].dataset == ref.dataset;
        assert joins[k].dataset == ref.dataset;
      }
    }
  }

  // ---------------------------------------------------------------- output labels

  /** `longer` is `shorter`, an underscore, and more text (possibly none). */
  predicate Extends(shorter: string, longer: string) {
    shorter + "_" <= longer
  }

  /** The label of `a` is also the label of `b`, whose dataset name is the longer one. */
  predicate Collides(a: ColumnRef, b: ColumnRef) {
    Extends(a.dataset, b.dataset) && a.column == b.dataset[|a.dataset| + 1..] + "_" + b.column
  }

  lemma SameLabel(a: ColumnRef, b: ColumnRef)
    requires |a.dataset| <= |b.dataset|
    ensures Label(a) == Label(b) <==> a == b || Collides(a, b)
  {
    var n := |a.dataset|;
    if Label(a) == Label(b) {
      assert a.dataset == Label(a)[..n] == Label(b)[..n] == b.dataset[..n];
      assert Label(a)[n] == '_';
      if n == |b.dataset| {
        assert a.column == Label(a)[n + 1..] == Label(b)[n + 1..] == b.column;
      } else {
        assert b.dataset[n] == Label(b)[n] == '_';
        assert b.dataset[..n + 1] == a.dataset + "_";
        assert a.column == Label(a)[n + 1..];
        assert Label(b)[n + 1..] == b.dataset[n + 1..] + "_" + b.column;
      }
    }
    if Collides(a, b) {
      var rest := b.dataset[n + 1..];
      assert b.dataset == a.dataset + "_" + rest;
      assert Label(b) == a.dataset + "_" + (rest + "_" + b.column);
    }
  }

  /** Exactly when the output columns of an accepted query have distinct labels. */
  lemma LabelsDistinctIff(catalog: Catalog, q: Query)
    requires Acceptable(catalog, q)
    ensures NoDuplicates(OutputLabels(q)) <==>
            q.joins == [] || forall i, j :: 0 <= i < |q.columnRefs| && 0 <= j < |q.columnRefs| ==>
              !Collides(q.columnRefs[i], q.columnRefs[j])
  {
    var refs, labels := q.columnRefs, OutputLabels(q);
    if q.joins == [] {
      forall i, j | 0 <= i < j < |refs| ensures labels[i] != labels[j] {
        assert Selectable(catalog, q, refs[i]) && Selectable(catalog, q, refs[j]);
      }
    } else {
      forall i, j | 0 <= i < |refs| && 0 <= j < |refs| && i != j
        ensures labels[i] == labels[j] <==> Collides(refs[i], refs[j]) || Collides(refs[j], refs[i])
      {
        if |refs[i].dataset| <= |refs[j].dataset| {
          SameLabel(refs[i], refs[j]);
        } else {
          SameLabel(refs[j], refs[i]);
        }
      }
      if !NoDuplicates(labels) {
        var i, j :| 0 <= i < j < |labels| && labels[i] == labels[j];
        assert Collides(refs[i], refs[j]) || Collides(refs[j], refs[i]);
      }
    }
  }

  ghost predicate CanShareLabel(d: string, e: string) {
    exists c, c' :: Label(ColumnRef(d, c)) == Label(ColumnRef(e, c'))
  }

  /**
    Two dataset names admit a pair of columns with one label exactly when one name extends
    the other by an underscore: the naming rule a catalog has to follow.
  */
  lemma NamesAdmitCollisionIff(d: string, e: string)
    requires d != e
    ensures CanShareLabel(d, e) <==> Extends(d, e) || Extends(e, d)
  {
    if Extends(d, e) {
      var c := e[|d| + 1..] + "_" + "x";
      SameLabel(ColumnRef(d, c), ColumnRef(e, "x"));
    }
    if Extends(e, d) {
      var c := d[|e| + 1..] + "_" + "x";
      SameLabel(ColumnRef(e, c), ColumnRef(d, "x"));
      assert Label(ColumnRef(d, "x")) == Label(ColumnRef(e, c));
    }
    if CanShareLabel(d, e) {
      var c, c' :| Label(ColumnRef(d, c)) == Label(ColumnRef(e, c'));
      if |d| <= |e| {
        SameLabel(ColumnRef(d, c), ColumnRef(e, c'));
      } else {
        SameLabel(ColumnRef(e, c'), ColumnRef(d, c));
      }
    }
  }

  // SELECT sales.daily_total, sales_daily.total FROM sales JOIN sales_daily ON daily_total = total
  const COLLIDING_CATALOG: Catalog := map[
    "sales" := Dataset("sales", ["daily_total"]), "sales_daily" := Dataset("sales_daily", ["total"])]
  const COLLIDING := Query(
    "sales", [ColumnRef("sales", "daily_total"), ColumnRef("sales_daily", "total")],
    [Join("sales_daily", "daily_total", "total", Inner)], None, Asc, 10)

  /** An accepted query whose two output columns have one label: rows keyed by label lose a column. */
  lemma LabelsCanCollide()
    ensures Acceptable(COLLIDING_CATALOG, COLLIDING)
    ensures !NoDuplicates(OutputLabels(COLLIDING))
  {
    var a, b := ColumnRef("sales", "daily_total"), ColumnRef("sales_daily", "total");
    assert "sales_daily"[6..] == "daily";
    assert "daily" + "_" + "total" == "daily_total";
    assert "sales" + "_" == "sales_daily"[..6];
    SameLabel(a, b);
    assert OutputLabels(COLLIDING)[0] == Label(a) && OutputLabels(COLLIDING)[1] == Label(b);
    assert COLLIDING.joins[0].dataset == "sales_daily";
    assert COLLIDING.columnRefs[0] != COLLIDING.columnRefs[1];
    assert Selectable(COLLIDING_CATALOG, COLLIDING, a) && Selectable(COLLIDING_CATALOG, COLLIDING, b);
  }
}
