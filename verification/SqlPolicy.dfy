/**
  The policy for hand-written SQL: a flat walk over the syntax tree that collects relation
  names, compared with the scoping rules by which PostgreSQL resolves those names.
*/
module SqlPolicy {
  import opened Wrappers
  import opened PythonText

  /** An identifier as written; PostgreSQL folds it to lower case unless it is quoted. */
  datatype Ident = Ident(text: string, quoted: bool)

  /** An absent `schema` or `catalog` has no text. */
  datatype TableRef = TableRef(name: Ident, schema: Ident, catalog: Ident)

  const ABSENT := Ident("", false)

  /** Constructs the policy looks for anywhere in the tree. */
  datatype Feature = Mutating | SelectInto | Locking | TableSample | Function(name: string)

  /**
    One SELECT: its WITH list (`aliases[i]` names `bodies[i]`), the relations its FROM clause
    names, and every subquery in FROM, in an expression or in a set operation.
  */
  datatype Query = Query(
    recursive: bool,
    aliases: seq<Ident>,
    bodies: seq<Query>,
    tables: seq<TableRef>,
    subqueries: seq<Query>,
    features: seq<Feature>)

  datatype Statement = SelectStatement(query: Query) | OtherStatement

  datatype Reason =
    | QueryTooLong
    | ParseError
    | MultipleStatements
    | NonSelectStatement
    | UnsafeCte
    | DisallowedFunction
    | DisallowedSelectInto
    | DisallowedLockingRead
    | DisallowedTableSample
    | DisallowedSystemCatalog
    | CrossSchemaRelation
    | UnknownRelation
    | MissingRelation

  datatype ValidatedSqlQuery = ValidatedSqlQuery(query: Query, referencedRelations: set<string>, rowLimit: int)

  const MAX_QUERY_TEXT_LENGTH := 4000
  const MAX_QUERY_ROW_LIMIT := 500
  const ALLOWED_FUNCTION_NAMES := {"avg", "count", "date_trunc", "max", "min", "round", "sum", "timestamp_trunc"}
  const SYSTEM_CATALOG_NAMES := {"information_schema", "pg_catalog"}

  /** The name PostgreSQL looks up. */
  function Folded(id: Ident): string {
    if id.quoted then id.text else Lower(id.text)
  }

  /** The name the policy looks up. */
  function Key(t: TableRef): string {
    Lower(t.name.text)
  }

  // ---------------------------------------------------------------- where queries occur

  /** `inner` is `q` or occurs in it, at any depth of WITH bodies and subqueries. */
  predicate Within(inner: Query, q: Query)
    decreases q, 1
  {
    inner == q || WithinAny(inner, q.bodies) || WithinAny(inner, q.subqueries)
  }

  predicate WithinAny(inner: Query, queries: seq<Query>)
    decreases queries, 0
  {
    exists k :: 0 <= k < |queries| && Within(inner, queries[k])
  }

  lemma WithinAnySnoc(inner: Query, queries: seq<Query>)
    requires queries != []
    ensures WithinAny(inner, queries) <==>
            WithinAny(inner, queries[..|queries| - 1]) || Within(inner, queries[|queries| - 1])
  {
    var n := |queries| - 1;
    if WithinAny(inner, queries[..n]) {
      var k :| 0 <= k < n && Within(inner, queries[..n][k]);
      assert Within(inner, queries[k]);
    }
    if WithinAny(inner, queries) && !Within(inner, queries[n]) {
      var k :| 0 <= k <= n && Within(inner, queries[k]);
      assert Within(inner, queries[..n][k]);
    }
  }

  // ---------------------------------------------------------------- the flat walk

  /** Every table reference in the tree, wherever it stands. */
  function Tables(q: Query): seq<TableRef>
    decreases q, 1
  {
    q.tables + TablesOfAll(q.bodies) + TablesOfAll(q.subqueries)
  }

  function TablesOfAll(queries: seq<Query>): seq<TableRef>
    decreases queries, 0
  {
    if queries == [] then [] else TablesOfAll(queries[..|queries| - 1]) + Tables(queries[|queries| - 1])
  }

  /** Lower-cased names of all common table expressions in the tree, whatever their scope. */
  function CteNames(q: Query): set<string>
    decreases q, 1
  {
    LowerAliases(q.aliases) + CteNamesOfAll(q.bodies) + CteNamesOfAll(q.subqueries)
  }

  function CteNamesOfAll(queries: seq<Query>): set<string>
    decreases queries, 0
  {
    if queries == [] then {} else CteNamesOfAll(queries[..|queries| - 1]) + CteNames(queries[|queries| - 1])
  }

  function LowerAliases(aliases: seq<Ident>): set<string> {
    set k | 0 <= k < |aliases| :: Lower(aliases[k].text)
  }

  predicate IsQualified(t: TableRef) {
    t.schema.text != "" || t.catalog.text != ""
  }

  predicate InSystemCatalog(t: TableRef) {
    Lower(t.schema.text) in SYSTEM_CATALOG_NAMES || Lower(t.catalog.text) in SYSTEM_CATALOG_NAMES
  }

  /** The names the walk keeps: those of references not spelt like a common table expression. */
  ghost function FlatRelations(q: Query): set<string> {
    set t | t in Tables(q) && Key(t) !in CteNames(q) :: Key(t)
  }

  /** Why a qualified reference is refused. */
  ghost predicate RefusesQualified(q: Query, why: Reason) {
    exists t ::
      && t in Tables(q) && Key(t) !in CteNames(q) && IsQualified(t)
      && why == if InSystemCatalog(t) then DisallowedSystemCatalog else CrossSchemaRelation
  }

  /** The walk reaches exactly the references of the queries that occur in the tree. */
  lemma {:induction false} TablesMeaning(q: Query, t: TableRef)
    ensures t in Tables(q) <==> exists inner :: Within(inner, q) && t in inner.tables
    decreases q, 1
  {
    TablesOfAllMeaning(q.bodies, t);
    TablesOfAllMeaning(q.subqueries, t);
    if t in q.tables {
      assert Within(q, q);
    }
  }

  lemma {:induction false} TablesOfAllMeaning(queries: seq<Query>, t: TableRef)
    ensures t in TablesOfAll(queries) <==> exists inner :: WithinAny(inner, queries) && t in inner.tables
    decreases queries, 0
  {
    if queries == [] {
    } else {
      var init, last := queries[..|queries| - 1], queries[|queries| - 1];
      TablesOfAllMeaning(init, t);
      TablesMeaning(last, t);
      forall inner ensures WithinAny(inner, queries) <==> WithinAny(inner, init) || Within(inner, last) {
        WithinAnySnoc(inner, queries);
      }
    }
  }

  ghost predicate Names(inner: Query, name: string) {
    exists k :: 0 <= k < |inner.aliases| && Lower(inner.aliases[k].text) == name
  }

  /** The skipped names are those of the WITH lists of all queries that occur in the tree. */
  lemma {:induction false} CteNamesMeaning(q: Query, name: string)
    ensures name in CteNames(q) <==> exists inner :: Within(inner, q) && Names(inner, name)
    decreases q, 1
  {
    CteNamesOfAllMeaning(q.bodies, name);
    CteNamesOfAllMeaning(q.subqueries, name);
    if Names(q, name) {
      assert Within(q, q);
    }
  }

  lemma {:induction false} CteNamesOfAllMeaning(queries: seq<Query>, name: string)
    ensures name in CteNamesOfAll(queries) <==> exists inner :: WithinAny(inner, queries) && Names(inner, name)
    decreases queries, 0
  {
    if queries == [] {
    } else {
      var init, last := queries[..|queries| - 1], queries[|queries| - 1];
      CteNamesOfAllMeaning(init, name);
      CteNamesMeaning(last, name);
      forall inner ensures WithinAny(inner, queries) <==> WithinAny(inner, init) || Within(inner, last) {
        WithinAnySnoc(inner, queries);
      }
    }
  }

  method ExtractReferencedRelations(q: Query) returns (r: Result<set<string>, Reason>)
    ensures r.Ok? <==> forall t :: t in Tables(q) && Key(t) !in CteNames(q) ==> !IsQualified(t)
    ensures r.Ok? ==> r.value == FlatRelations(q)
    ensures r.Err? ==> RefusesQualified(q, r.error)
  {
    var tables, cteNames := Tables(q), CteNames(q);
    var relations: set<string> := {};
    for i := 0 to |tables|
      invariant forall k :: 0 <= k < i && Key(tables[k]) !in cteNames ==> !IsQualified(tables[k])
      invariant relations == set k | 0 <= k < i && Key(tables[k]) !in cteNames :: Key(tables[k])
    {
      var table := tables[i];
      if Key(table) in cteNames {
        continue;
      }
      if InSystemCatalog(table) {
        assert table.schema.text == "" ==> Lower(table.schema.text) == "";
        assert table.catalog.text == "" ==> Lower(table.catalog.text) == "";
        return Err(DisallowedSystemCatalog);
      }
      if IsQualified(table) {
        return Err(CrossSchemaRelation);
      }
      relations := relations + {Key(table)};
    }
    r := Ok(relations);
  }

  // ---------------------------------------------------------------- scope-aware resolution

  function FoldedAliases(aliases: seq<Ident>): set<string> {
    set k | 0 <= k < |aliases| :: Folded(aliases[k])
  }

  /**
    The references that resolve to stored relations. A WITH list is visible in the body of
    its query and below; a member sees the members before it, or all of them under RECURSIVE.
  */
  function StoredRefs(q: Query, visible: set<string>): seq<TableRef>
    decreases q, 1
  {
    var inside := visible + FoldedAliases(q.aliases);
    StoredHere(q.tables, inside)
    + StoredInBodies(q.bodies, q.aliases, if q.recursive then inside else visible)
    + StoredInAll(q.subqueries, inside)
  }

  function StoredHere(tables: seq<TableRef>, visible: set<string>): seq<TableRef> {
    if tables == [] then []
    else
      var t := tables[|tables| - 1];
      StoredHere(tables[..|tables| - 1], visible) + if IsCteReference(t, visible) then [] else [t]
  }

  function StoredInBodies(bodies: seq<Query>, aliases: seq<Ident>, visible: set<string>): seq<TableRef>
    decreases bodies, 0
  {
    if bodies == [] then []
    else
      var n := |bodies| - 1;
      StoredInBodies(bodies[..n], aliases, visible)
      + StoredRefs(bodies[n], visible + FoldedAliases(aliases[..Min(n, |aliases|)]))
  }

  function StoredInAll(queries: seq<Query>, visible: set<string>): seq<TableRef>
    decreases queries, 0
  {
    if queries == [] then []
    else StoredInAll(queries[..|queries| - 1], visible) + StoredRefs(queries[|queries| - 1], visible)
  }

  /** Only an unqualified name can mean a common table expression. */
  predicate IsCteReference(t: TableRef, visible: set<string>) {
    !IsQualified(t) && Folded(t.name) in visible
  }

  /** Case-insensitive names of the stored relations a query reads. */
  ghost function StoredRelations(q: Query): set<string> {
    set t | t in StoredRefs(q, {}) :: Key(t)
  }

  // ---------------------------------------------------------------- the scoping rules, by path

  /** From a query into one of its WITH bodies or of its subqueries. */
  datatype Turn = IntoBody(n: nat) | IntoSubquery(k: nat)

  function Child(q: Query, turn: Turn): Option<Query> {
    match turn
    case IntoBody(n) => if n < |q.bodies| then Some(q.bodies[n]) else None
    case IntoSubquery(k) => if k < |q.subqueries| then Some(q.subqueries[k]) else None
  }

  /** The query a path leads to. */
  function At(q: Query, path: seq<Turn>): Option<Query>
    decreases |path|
  {
    if path == [] then Some(q)
    else
      var child := Child(q, path[0]);
      if child.None? then None else At(child.value, path[1..])
  }

  predicate Defines(q: Query, name: string, before: nat) {
    exists k :: 0 <= k < |q.aliases| && k < before && Folded(q.aliases[k]) == name
  }

  /**
    What a WITH list offers below its query: all its names to subqueries; to a body of the list
    those before it, or all of them under RECURSIVE.
  */
  predicate OffersName(q: Query, turn: Turn, name: string) {
    match turn
    case IntoBody(n) => Defines(q, name, if q.recursive then |q.aliases| else n)
    case IntoSubquery(_) => Defines(q, name, |q.aliases|)
  }

  /** Some query on the way offers the name. */
  predicate IsOffered(q: Query, path: seq<Turn>, name: string) {
    exists i :: 0 <= i < |path| && At(q, path[..i]).Some? && OffersName(At(q, path[..i]).value, path[i], name)
  }

  /** A reference in the query at `path` is stored unless its unqualified name is in scope there. */
  ghost predicate IsStoredAt(q: Query, path: seq<Turn>, t: TableRef, visible: set<string>) {
    && At(q, path).Some? && t in At(q, path).value.tables
    && (IsQualified(t)
        || (&& Folded(t.name) !in visible && !IsOffered(q, path, Folded(t.name))
            && !Defines(At(q, path).value, Folded(t.name), |At(q, path).value.aliases|)))
  }

  lemma AliasesMeaning(q: Query, name: string, n: nat)
    ensures name in FoldedAliases(q.aliases[..Min(n, |q.aliases|)]) <==> Defines(q, name, n)
    ensures name in FoldedAliases(q.aliases) <==> Defines(q, name, |q.aliases|)
  {
    var earlier := q.aliases[..Min(n, |q.aliases|)];
    if Defines(q, name, n) {
      var k :| 0 <= k < |q.aliases| && k < n && Folded(q.aliases[k]) == name;
      assert earlier[k] == q.aliases[k];
    }
    if name in FoldedAliases(earlier) {
      var k :| 0 <= k < |earlier| && Folded(earlier[k]) == name;
      assert q.aliases[k] == earlier[k];
    }
  }

  /** What is visible below a query after a turn. */
  function VisibleAfter(q: Query, turn: Turn, visible: set<string>): set<string> {
    match turn
    case IntoSubquery(_) => visible + FoldedAliases(q.aliases)
    case IntoBody(n) =>
      (if q.recursive then visible + FoldedAliases(q.aliases) else visible)
      + FoldedAliases(q.aliases[..Min(n, |q.aliases|)])
  }

  lemma VisibleAfterMeaning(q: Query, turn: Turn, visible: set<string>, name: string)
    ensures name in VisibleAfter(q, turn, visible) <==> name in visible || OffersName(q, turn, name)
  {
    match turn
    case IntoSubquery(_) => AliasesMeaning(q, name, 0);
    case IntoBody(n) => AliasesMeaning(q, name, n);
  }

  lemma IsOfferedStep(q: Query, path: seq<Turn>, name: string)
    requires path != [] && Child(q, path[0]).Some?
    ensures IsOffered(q, path, name) <==>
            OffersName(q, path[0], name) || IsOffered(Child(q, path[0]).value, path[1..], name)
  {
    var child, rest := Child(q, path[0]).value, path[1..];
    forall i | 0 <= i < |rest|
      ensures At(q, path[..i + 1]) == At(child, rest[..i]) && path[i + 1] == rest[i]
    {
      assert path[..i + 1][0] == path[0] && path[..i + 1][1..] == rest[..i];
    }
    assert At(q, path[..0]) == Some(q);
    if IsOffered(child, rest, name) {
      var i :| 0 <= i < |rest| && At(child, rest[..i]).Some? && OffersName(At(child, rest[..i]).value, rest[i], name);
      assert At(q, path[..i + 1]).Some? && OffersName(At(q, path[..i + 1]).value, path[i + 1], name);
    }
    if IsOffered(q, path, name) && !OffersName(q, path[0], name) {
      var i :| 0 <= i < |path| && At(q, path[..i]).Some? && OffersName(At(q, path[..i]).value, path[i], name);
      assert At(child, rest[..i - 1]).Some? && OffersName(At(child, rest[..i - 1]).value, rest[i - 1], name);
    }
  }

  /** A path that starts with a turn is a path of the child, seen with what the turn makes visible. */
  lemma IsStoredStep(q: Query, path: seq<Turn>, t: TableRef, visible: set<string>)
    requires path != []
    ensures IsStoredAt(q, path, t, visible) <==>
            && Child(q, path[0]).Some?
            && IsStoredAt(Child(q, path[0]).value, path[1..], t, VisibleAfter(q, path[0], visible))
  {
    if Child(q, path[0]).Some? {
      IsOfferedStep(q, path, Folded(t.name));
      VisibleAfterMeaning(q, path[0], visible, Folded(t.name));
    }
  }

  ghost predicate IsStored(q: Query, t: TableRef, visible: set<string>) {
    exists path :: IsStoredAt(q, path, t, visible)
  }

  /** A reference is stored in a query if it is so in its own FROM clause, or below some turn. */
  lemma IsStoredSplit(q: Query, t: TableRef, visible: set<string>)
    ensures IsStored(q, t, visible) <==>
            || IsStoredAt(q, [], t, visible)
            || exists turn :: Child(q, turn).Some? && IsStored(Child(q, turn).value, t, VisibleAfter(q, turn, visible))
  {
    if IsStored(q, t, visible) && !IsStoredAt(q, [], t, visible) {
      var path :| IsStoredAt(q, path, t, visible);
      IsStoredStep(q, path, t, visible);
      assert IsStored(Child(q, path[0]).value, t, VisibleAfter(q, path[0], visible));
    }
    forall turn | Child(q, turn).Some? && IsStored(Child(q, turn).value, t, VisibleAfter(q, turn, visible))
      ensures IsStored(q, t, visible)
    {
      var rest :| IsStoredAt(Child(q, turn).value, rest, t, VisibleAfter(q, turn, visible));
      assert ([turn] + rest)[1..] == rest;
      IsStoredStep(q, [turn] + rest, t, visible);
    }
  }

  lemma {:induction false} StoredHereMeaning(tables: seq<TableRef>, visible: set<string>)
    ensures forall t :: t in StoredHere(tables, visible) <==> t in tables && !IsCteReference(t, visible)
  {
    if tables == [] {
    } else {
      var n := |tables| - 1;
      StoredHereMeaning(tables[..n], visible);
      assert tables == tables[..n] + [tables[n]];
    }
  }

  /**
    The resolved references are exactly those some path of the tree leads to without their
    unqualified name being defined by a WITH list in scope there.
  */
  lemma {:induction false} StoredRefsMeaning(q: Query, visible: set<string>, t: TableRef)
    ensures t in StoredRefs(q, visible) <==> IsStored(q, t, visible)
    decreases q, 1
  {
    var inside := visible + FoldedAliases(q.aliases);
    StoredHereMeaning(q.tables, inside);
    AliasesMeaning(q, Folded(t.name), 0);
    StoredInAllMeaning(q.subqueries, inside, t);
    StoredInBodiesMeaning(q.bodies, q.aliases, if q.recursive then inside else visible, t);
    IsStoredSplit(q, t, visible);
    StoredTurns(q, visible, t);
  }

  lemma StoredTurns(q: Query, visible: set<string>, t: TableRef)
    ensures (exists turn :: Child(q, turn).Some? && IsStored(Child(q, turn).value, t, VisibleAfter(q, turn, visible))) <==>
            || IsStoredInAny(q.subqueries, t, visible + FoldedAliases(q.aliases))
            || IsStoredInBody(q.bodies, q.aliases, t, if q.recursive then visible + FoldedAliases(q.aliases) else visible)
  {
    forall k: nat | k < |q.subqueries|
      ensures Child(q, IntoSubquery(k)) == Some(q.subqueries[k])
      ensures VisibleAfter(q, IntoSubquery(k), visible) == visible + FoldedAliases(q.aliases)
    {
    }
    forall n: nat | n < |q.bodies| ensures Child(q, IntoBody(n)) == Some(q.bodies[n]) {
    }
  }

  ghost predicate IsStoredInAny(queries: seq<Query>, t: TableRef, visible: set<string>) {
    exists k :: 0 <= k < |queries| && IsStored(queries[k], t, visible)
  }

  ghost predicate IsStoredInBody(bodies: seq<Query>, aliases: seq<Ident>, t: TableRef, visible: set<string>) {
    exists n: nat :: n < |bodies| && IsStored(bodies[n], t, visible + FoldedAliases(aliases[..Min(n, |aliases|)]))
  }

  lemma StoredInAnySnoc(queries: seq<Query>, t: TableRef, visible: set<string>)
    requires queries != []
    ensures IsStoredInAny(queries, t, visible) <==>
            IsStoredInAny(queries[..|queries| - 1], t, visible) || IsStored(queries[|queries| - 1], t, visible)
  {
    var n := |queries| - 1;
    if IsStoredInAny(queries[..n], t, visible) {
      var k :| 0 <= k < n && IsStored(queries[..n][k], t, visible);
      assert IsStored(queries[k], t, visible);
    }
    if IsStoredInAny(queries, t, visible) && !IsStored(queries[n], t, visible) {
      var k :| 0 <= k <= n && IsStored(queries[k], t, visible);
      assert IsStored(queries[..n][k], t, visible);
    }
  }

  lemma StoredInBodySnoc(bodies: seq<Query>, aliases: seq<Ident>, t: TableRef, visible: set<string>)
    requires bodies != []
    ensures var n := |bodies| - 1;
            IsStoredInBody(bodies, aliases, t, visible) <==>
            || IsStoredInBody(bodies[..n], aliases, t, visible)
            || IsStored(bodies[n], t, visible + FoldedAliases(aliases[..Min(n, |aliases|)]))
  {
    var n := |bodies| - 1;
    if IsStoredInBody(bodies[..n], aliases, t, visible) {
      var k: nat :| k < n && IsStored(bodies[..n][k], t, visible + FoldedAliases(aliases[..Min(k, |aliases|)]));
      assert bodies[..n][k] == bodies[k];
    }
    if IsStoredInBody(bodies, aliases, t, visible)
       && !IsStored(bodies[n], t, visible + FoldedAliases(aliases[..Min(n, |aliases|)])) {
      var k: nat :| k <= n && IsStored(bodies[k], t, visible + FoldedAliases(aliases[..Min(k, |aliases|)]));
      assert bodies[..n][k] == bodies[k];
    }
  }

  lemma {:induction false} StoredInAllMeaning(queries: seq<Query>, visible: set<string>, t: TableRef)
    ensures t in StoredInAll(queries, visible) <==> IsStoredInAny(queries, t, visible)
    decreases queries, 0
  {
    if queries == [] {
    } else {
      var n := |queries| - 1;
      StoredInAllMeaning(queries[..n], visible, t);
      StoredRefsMeaning(queries[n], visible, t);
      StoredInAnySnoc(queries, t, visible);
    }
  }

  lemma {:induction false} StoredInBodiesMeaning(
    bodies: seq<Query>, aliases: seq<Ident>, visible: set<string>, t: TableRef)
    ensures t in StoredInBodies(bodies, aliases, visible) <==> IsStoredInBody(bodies, aliases, t, visible)
    decreases bodies, 0
  {
    if bodies == [] {
    } else {
      var n := |bodies| - 1;
      StoredInBodiesMeaning(bodies[..n], aliases, visible, t);
      StoredRefsMeaning(bodies[n], visible + FoldedAliases(aliases[..Min(n, |aliases|)]), t);
      StoredInBodySnoc(bodies, aliases, t, visible);
    }
  }

  // ---------------------------------------------------------------- the walk against the scoping rules

  /** Names in scope are, case-insensitively, names of common table expressions of the tree. */
  ghost predicate ScopeWithin(visible: set<string>, names: set<string>) {
    forall n :: n in visible ==> Lower(n) in names
  }

  /** Each reference of the tree is stored, or is spelt like some common table expression. */
  ghost predicate Sorted(tables: seq<TableRef>, stored: seq<TableRef>, names: set<string>) {
    && (forall t :: t in stored ==> t in tables)
    && (forall t :: t in tables ==> t in stored || Key(t) in names)
  }

  lemma AliasesWithin(aliases: seq<Ident>, names: set<string>)
    requires LowerAliases(aliases) <= names
    ensures ScopeWithin(FoldedAliases(aliases), names)
  {
    forall k | 0 <= k < |aliases| ensures Lower(Folded(aliases[k])) in names {
      LowerLower(aliases[k].text);
      assert Lower(aliases[k].text) in LowerAliases(aliases);
    }
  }

  lemma {:induction false} QuerySorted(q: Query, visible: set<string>, names: set<string>)
    requires CteNames(q) <= names && ScopeWithin(visible, names)
    ensures Sorted(Tables(q), StoredRefs(q, visible), names)
    decreases q, 1
  {
    var inside := visible + FoldedAliases(q.aliases);
    AliasesWithin(q.aliases, names);
    HereSorted(q.tables, inside, names);
    BodiesSorted(q.bodies, q.aliases, if q.recursive then inside else visible, names);
    AllSorted(q.subqueries, inside, names);
  }

  lemma {:induction false} HereSorted(tables: seq<TableRef>, visible: set<string>, names: set<string>)
    requires ScopeWithin(visible, names)
    ensures Sorted(tables, StoredHere(tables, visible), names)
  {
    if tables == [] {
    } else {
      var n := |tables| - 1;
      HereSorted(tables[..n], visible, names);
      LowerLower(tables[n].name.text);
      assert tables == tables[..n] + [tables[n]];
    }
  }

  lemma {:induction false} BodiesSorted(
    bodies: seq<Query>, aliases: seq<Ident>, visible: set<string>, names: set<string>)
    requires CteNamesOfAll(bodies) <= names && LowerAliases(aliases) <= names && ScopeWithin(visible, names)
    ensures Sorted(TablesOfAll(bodies), StoredInBodies(bodies, aliases, visible), names)
    decreases bodies, 0
  {
    if bodies == [] {
    } else {
      var n := |bodies| - 1;
      BodiesSorted(bodies[..n], aliases, visible, names);
      var earlier := aliases[..Min(n, |aliases|)];
      assert LowerAliases(earlier) <= LowerAliases(aliases);
      AliasesWithin(earlier, names);
      QuerySorted(bodies[n], visible + FoldedAliases(earlier), names);
    }
  }

  lemma {:induction false} AllSorted(queries: seq<Query>, visible: set<string>, names: set<string>)
    requires CteNamesOfAll(queries) <= names && ScopeWithin(visible, names)
    ensures Sorted(TablesOfAll(queries), StoredInAll(queries, visible), names)
    decreases queries, 0
  {
    if queries == [] {
    } else {
      AllSorted(queries[..|queries| - 1], visible, names);
      QuerySorted(queries[|queries| - 1], visible, names);
    }
  }

  /** The walk finds the stored relations except those spelt like some common table expression. */
  lemma FlatWalkMeaning(q: Query)
    ensures FlatRelations(q) == StoredRelations(q) - CteNames(q)
  {
    QuerySorted(q, {}, CteNames(q));
  }

  /** The walk agrees with SQL scoping exactly when no stored relation shares a name with one. */
  lemma FlatWalkIsExactIff(q: Query)
    ensures FlatRelations(q) == StoredRelations(q) <==> StoredRelations(q) !! CteNames(q)
  {
    FlatWalkMeaning(q);
  }

  // SELECT ... FROM orders, (WITH orders AS (SELECT ... FROM clicks) SELECT ... FROM orders)
  const ORDERS := TableRef(Ident("orders", false), ABSENT, ABSENT)
  const CLICKS := TableRef(Ident("clicks", false), ABSENT, ABSENT)
  const CTE_BODY := Query(false, [], [], [CLICKS], [], [])
  const INNER := Query(false, [Ident("orders", false)], [CTE_BODY], [ORDERS], [], [])
  const OUTER := Query(false, [], [], [ORDERS], [INNER], [])

  lemma BodyStoredRefs()
    ensures StoredRefs(CTE_BODY, {}) == [CLICKS] && StoredHere([ORDERS], {}) == [ORDERS]
  {
    LowerIsIdentity("clicks");
    var none: set<string> := {};
    assert none + FoldedAliases([]) == none;
    assert StoredHere([CLICKS], none) == [CLICKS];
  }

  lemma InnerStoredRefs()
    ensures StoredRefs(INNER, {}) == [CLICKS]
  {
    BodyStoredRefs();
    LowerIsIdentity("orders");
    var none: set<string> := {};
    assert none + FoldedAliases([]) == none;
    assert StoredInBodies([CTE_BODY], INNER.aliases, none) == [CLICKS] by {
      assert INNER.aliases[..0] == [];
    }
    assert none + FoldedAliases(INNER.aliases) == {"orders"} by {
      assert Folded(INNER.aliases[0]) == "orders";
    }
    assert StoredHere([ORDERS], {"orders"}) == [];
  }

  lemma OuterStoredRefs()
    ensures StoredRefs(OUTER, {}) == [ORDERS, CLICKS]
  {
    BodyStoredRefs();
    InnerStoredRefs();
    var none: set<string> := {};
    assert none + FoldedAliases([]) == none;
    assert StoredInAll([INNER], none) == [CLICKS];
  }

  lemma OuterCteNames()
    ensures CteNames(OUTER) == {"orders"}
  {
    LowerIsIdentity("orders");
    assert LowerAliases(INNER.aliases) == {"orders"} by {
      assert Lower(INNER.aliases[0].text) == "orders";
    }
    assert CteNames(CTE_BODY) == {};
    assert CteNamesOfAll([CTE_BODY]) == {};
    assert CteNames(INNER) == {"orders"};
    assert CteNamesOfAll([INNER]) == {"orders"};
  }

  /** A name defined in an inner WITH hides a stored relation of that name read outside it. */
  lemma InnerCteHidesOuterRelation()
    ensures StoredRelations(OUTER) == {"orders", "clicks"} && FlatRelations(OUTER) == {"clicks"}
  {
    OuterStoredRefs();
    OuterCteNames();
    LowerIsIdentity("orders");
    LowerIsIdentity("clicks");
    assert Key(ORDERS) == "orders" && Key(CLICKS) == "clicks";
    assert ORDERS in [ORDERS, CLICKS] && CLICKS in [ORDERS, CLICKS];
    FlatWalkMeaning(OUTER);
  }

  // ---------------------------------------------------------------- validation

  function Features(q: Query): seq<Feature>
    decreases q, 1
  {
    q.features + FeaturesOfAll(q.bodies) + FeaturesOfAll(q.subqueries)
  }

  function FeaturesOfAll(queries: seq<Query>): seq<Feature>
    decreases queries, 0
  {
    if queries == [] then [] else FeaturesOfAll(queries[..|queries| - 1]) + Features(queries[|queries| - 1])
  }

  predicate FunctionAllowed(f: Feature) {
    f.Function? ==> Lower(f.name) in ALLOWED_FUNCTION_NAMES
  }

  /** The first check of the shape that fails. */
  function ShapeReason(features: seq<Feature>): Option<Reason> {
    if Mutating in features then Some(UnsafeCte)
    else if SelectInto in features then Some(DisallowedSelectInto)
    else if Locking in features then Some(DisallowedLockingRead)
    else if TableSample in features then Some(DisallowedTableSample)
    else if exists k :: 0 <= k < |features| && !FunctionAllowed(features[k]) then Some(DisallowedFunction)
    else None
  }

  /** Some query that occurs in the tree uses the construct. */
  ghost predicate Uses(q: Query, f: Feature) {
    exists inner :: Within(inner, q) && f in inner.features
  }

  ghost predicate UsesUnlistedFunction(q: Query) {
    exists name :: Uses(q, Function(name)) && Lower(name) !in ALLOWED_FUNCTION_NAMES
  }

  /** No query that occurs in the tree uses a forbidden construct. */
  ghost predicate IsPlainSelect(q: Query) {
    forall inner, f :: Within(inner, q) && f in inner.features ==> f.Function? && Lower(f.name) in ALLOWED_FUNCTION_NAMES
  }

  /** The reason given for a forbidden construct anywhere in the tree. */
  ghost predicate ShapeRefused(q: Query, why: Reason) {
    if Uses(q, Mutating) then why == UnsafeCte
    else if Uses(q, SelectInto) then why == DisallowedSelectInto
    else if Uses(q, Locking) then why == DisallowedLockingRead
    else if Uses(q, TableSample) then why == DisallowedTableSample
    else UsesUnlistedFunction(q) && why == DisallowedFunction
  }

  /** An empty request allowlist counts as no allowlist. */
  function EffectiveAllowlist(requested: Option<set<string>>, default_: set<string>): set<string> {
    if requested.Some? && requested.value != {} then requested.value else default_
  }

  /**
    What a text must be: short, one SELECT without a forbidden construct, reading at least one
    relation outside its common table expressions, all of them unqualified and allowed.
  */
  ghost predicate Accepts(sql: string, allowed: set<string>, parse: string -> Option<seq<Statement>>) {
    && |sql| <= MAX_QUERY_TEXT_LENGTH
    && parse(sql).Some? && |parse(sql).value| == 1 && parse(sql).value[0].SelectStatement?
    && var q := parse(sql).value[0].query;
    && IsPlainSelect(q)
    && (forall t :: t in Tables(q) && Key(t) !in CteNames(q) ==> !IsQualified(t))
    && {} < FlatRelations(q) <= allowed
  }

  /** The reason given for refusing a text: the first stage that fails. */
  ghost predicate Refused(
    sql: string, allowed: set<string>, parse: string -> Option<seq<Statement>>, why: Reason)
  {
    if |sql| > MAX_QUERY_TEXT_LENGTH then why == QueryTooLong
    else if parse(sql).None? then why == ParseError
    else if |parse(sql).value| != 1 then why == MultipleStatements
    else if !parse(sql).value[0].SelectStatement? then why == NonSelectStatement
    else
      var q := parse(sql).value[0].query;
      if !IsPlainSelect(q) then ShapeRefused(q, why)
      else if exists t :: t in Tables(q) && Key(t) !in CteNames(q) && IsQualified(t) then RefusesQualified(q, why)
      else if FlatRelations(q) == {} then why == MissingRelation
      else !(FlatRelations(q) <= allowed) && why == UnknownRelation
  }

  lemma {:induction false} FeaturesMeaning(q: Query, f: Feature)
    ensures f in Features(q) <==> Uses(q, f)
    decreases q, 1
  {
    FeaturesOfAllMeaning(q.bodies, f);
    FeaturesOfAllMeaning(q.subqueries, f);
    if f in q.features {
      assert Within(q, q);
    }
  }

  lemma {:induction false} FeaturesOfAllMeaning(queries: seq<Query>, f: Feature)
    ensures f in FeaturesOfAll(queries) <==> exists inner :: WithinAny(inner, queries) && f in inner.features
    decreases queries, 0
  {
    if queries == [] {
    } else {
      var init, last := queries[..|queries| - 1], queries[|queries| - 1];
      FeaturesOfAllMeaning(init, f);
      FeaturesMeaning(last, f);
      forall inner ensures WithinAny(inner, queries) <==> WithinAny(inner, init) || Within(inner, last) {
        WithinAnySnoc(inner, queries);
      }
    }
  }

  /** The shape checks let a tree through exactly when no query in it uses a forbidden construct, and give its reason. */
  lemma ShapeReasonMeaning(q: Query)
    ensures ShapeReason(Features(q)).None? <==> IsPlainSelect(q)
    ensures ShapeReason(Features(q)).Some? ==> ShapeRefused(q, ShapeReason(Features(q)).value)
  {
    var features := Features(q);
    forall f ensures f in features <==> Uses(q, f) {
      FeaturesMeaning(q, f);
    }
    if UsesUnlistedFunction(q) {
      var name :| Uses(q, Function(name)) && Lower(name) !in ALLOWED_FUNCTION_NAMES;
      var k :| 0 <= k < |features| && features[k] == Function(name);
      assert !FunctionAllowed(features[k]);
    }
    if exists k :: 0 <= k < |features| && !FunctionAllowed(features[k]) {
      var k :| 0 <= k < |features| && !FunctionAllowed(features[k]);
      assert features[k] in features && Uses(q, features[k]);
      assert UsesUnlistedFunction(q);
    }
    PlainIff(q);
  }

  lemma PlainIff(q: Query)
    ensures IsPlainSelect(q) <==>
            && !Uses(q, Mutating) && !Uses(q, SelectInto) && !Uses(q, Locking) && !Uses(q, TableSample)
            && !UsesUnlistedFunction(q)
  {
    if !IsPlainSelect(q) {
      var inner, f :| Within(inner, q) && f in inner.features && !(f.Function? && Lower(f.name) in ALLOWED_FUNCTION_NAMES);
      assert Uses(q, f);
      if f.Function? {
        assert Uses(q, Function(f.name));
        assert UsesUnlistedFunction(q);
      }
    } else {
      forall f | Uses(q, f) ensures f.Function? && Lower(f.name) in ALLOWED_FUNCTION_NAMES {
        var inner :| Within(inner, q) && f in inner.features;
      }
    }
  }

  /** `parse` is the SQL parser: `None` for a syntax error, else the non-empty statements. */
  method Validate(
    sql: string, requestedRowLimit: int, requested: Option<set<string>>, default_: set<string>,
    parse: string -> Option<seq<Statement>>)
    returns (r: Result<ValidatedSqlQuery, Reason>)
    ensures r.Ok? <==> Accepts(sql, EffectiveAllowlist(requested, default_), parse)
    ensures requested == None || requested == Some({}) ==> (r.Ok? <==> Accepts(sql, default_, parse))
    ensures requested.Some? && requested.value != {} ==> (r.Ok? <==> Accepts(sql, requested.value, parse))
    ensures r.Ok? ==> forall inner, f :: Within(inner, r.value.query) && f in inner.features ==> f.Function?
    ensures r.Ok? ==>
              && r.value.query == parse(sql).value[0].query
              && r.value.referencedRelations == FlatRelations(r.value.query)
              && r.value.rowLimit == Min(requestedRowLimit, MAX_QUERY_ROW_LIMIT) <= 500
    ensures r.Err? ==> Refused(sql, EffectiveAllowlist(requested, default_), parse, r.error)
  {
    if |sql| > MAX_QUERY_TEXT_LENGTH {
      return Err(QueryTooLong);
    }
    var parsed := parse(sql);
    if parsed.None? {
      return Err(ParseError);
    }
    if |parsed.value| != 1 {
      return Err(MultipleStatements);
    }
    if !parsed.value[0].SelectStatement? {
      return Err(NonSelectStatement);
    }
    var q := parsed.value[0].query;
    ShapeReasonMeaning(q);
    var shape := ShapeReason(Features(q));
    if shape.Some? {
      return Err(shape.value);
    }
    var extracted := ExtractReferencedRelations(q);
    if extracted.Err? {
      return Err(extracted.error);
    }
    var relations := extracted.value;
    assert parsed.value == [SelectStatement(q)];
    if relations == {} {
      return Err(MissingRelation);
    }
    var unknown := relations - EffectiveAllowlist(requested, default_);
    if unknown != {} {
      return Err(UnknownRelation);
    }
    assert forall name :: name in relations ==> name !in unknown;
    r := Ok(ValidatedSqlQuery(q, relations, Min(requestedRowLimit, MAX_QUERY_ROW_LIMIT)));
  }

  // ---------------------------------------------------------------- what acceptance means

  /** What the policy is for: a reference to a stored relation it wants to let through. */
  predicate IsPermitted(t: TableRef, allowed: set<string>) {
    !IsQualified(t) && Key(t) in allowed
  }

  /**
    An accepted text always reads a stored relation. All that it reads is permitted exactly
    when that holds of the references the walk skips, those spelt like a common table expression.
  */
  lemma AcceptedReadsPermittedIff(sql: string, allowed: set<string>, parse: string -> Option<seq<Statement>>)
    requires Accepts(sql, allowed, parse)
    ensures var q := parse(sql).value[0].query;
            && StoredRefs(q, {}) != []
            && ((forall t :: t in StoredRefs(q, {}) ==> IsPermitted(t, allowed)) <==>
                (forall t :: t in StoredRefs(q, {}) && Key(t) in CteNames(q) ==> IsPermitted(t, allowed)))
  {
    var q := parse(sql).value[0].query;
    FlatWalkMeaning(q);
    QuerySorted(q, {}, CteNames(q));
    forall t | t in StoredRefs(q, {}) && Key(t) !in CteNames(q) ensures IsPermitted(t, allowed) {
      assert Key(t) in FlatRelations(q);
    }
    assert StoredRefs(q, {}) == [] ==> StoredRelations(q) == {};
  }

  /**
    When no stored relation shares a name with a common table expression, every stored relation
    an accepted text reads is unqualified and on the allowlist: under the very name PostgreSQL
    looks up, unless the name is quoted and has capitals.
  */
  lemma AcceptedReadsOnlyAllowlisted(sql: string, allowed: set<string>, parse: string -> Option<seq<Statement>>)
    requires Accepts(sql, allowed, parse)
    requires var q := parse(sql).value[0].query; StoredRelations(q) !! CteNames(q)
    ensures var stored := StoredRefs(parse(sql).value[0].query, {});
            && (forall t :: t in stored ==> IsPermitted(t, allowed))
            && (forall t :: t in stored && (t.name.quoted ==> Lower(t.name.text) == t.name.text) ==>
                 Folded(t.name) in allowed)
  {
    var q := parse(sql).value[0].query;
    AcceptedReadsPermittedIff(sql, allowed, parse);
    forall t | t in StoredRefs(q, {}) ensures Key(t) !in CteNames(q) {
      assert Key(t) in StoredRelations(q);
    }
  }

  // WITH pg_user AS (SELECT ... FROM event_type_counts) SELECT ... FROM pg_catalog.pg_user
  const ALLOWED_REF := TableRef(Ident("event_type_counts", false), ABSENT, ABSENT)
  const SYSTEM_REF := TableRef(Ident("pg_user", false), Ident("pg_catalog", false), ABSENT)
  const ALLOWED_BODY := Query(false, [], [], [ALLOWED_REF], [], [])
  const SHADOWING := Query(false, [Ident("pg_user", false)], [ALLOWED_BODY], [SYSTEM_REF], [], [])

  lemma ShadowingRefs()
    ensures Tables(SHADOWING) == [SYSTEM_REF, ALLOWED_REF]
    ensures StoredRefs(SHADOWING, {}) == [SYSTEM_REF, ALLOWED_REF]
  {
    var none: set<string> := {};
    assert none + FoldedAliases([]) == none;
    assert StoredHere([ALLOWED_REF], none) == [ALLOWED_REF];
    assert StoredRefs(ALLOWED_BODY, none) == [ALLOWED_REF];
    assert StoredInBodies([ALLOWED_BODY], SHADOWING.aliases, none) == [ALLOWED_REF] by {
      assert SHADOWING.aliases[..0] == [];
    }
    assert StoredHere([SYSTEM_REF], none + FoldedAliases(SHADOWING.aliases)) == [SYSTEM_REF];
    assert Tables(ALLOWED_BODY) == [ALLOWED_REF];
    assert TablesOfAll([ALLOWED_BODY]) == [ALLOWED_REF];
  }

  lemma ShadowingNames()
    ensures CteNames(SHADOWING) == {"pg_user"}
    ensures Key(SYSTEM_REF) == "pg_user" && Key(ALLOWED_REF) == "event_type_counts"
  {
    LowerIsIdentity("pg_user");
    LowerIsIdentity("event_type_counts");
    assert LowerAliases(SHADOWING.aliases) == {"pg_user"} by {
      assert Lower(SHADOWING.aliases[0].text) == "pg_user";
    }
    assert CteNames(ALLOWED_BODY) == {};
    assert CteNamesOfAll([ALLOWED_BODY]) == {};
  }

  lemma ShadowingIsPlain()
    ensures IsPlainSelect(SHADOWING)
  {
    assert FeaturesOfAll([ALLOWED_BODY]) == [] by {
      assert [ALLOWED_BODY][..0] == [];
      assert Features(ALLOWED_BODY) == [];
    }
    assert Features(SHADOWING) == [];
    ShapeReasonMeaning(SHADOWING);
  }

  lemma ShadowingFlat()
    ensures FlatRelations(SHADOWING) == {"event_type_counts"}
    ensures forall t :: t in Tables(SHADOWING) && Key(t) !in CteNames(SHADOWING) ==> !IsQualified(t)
  {
    ShadowingRefs();
    ShadowingNames();
    assert ALLOWED_REF in Tables(SHADOWING);
  }

  /** An accepted text that reads a relation of the system catalog. */
  lemma AcceptedCanReadSystemCatalog(sql: string, parse: string -> Option<seq<Statement>>)
    requires |sql| <= MAX_QUERY_TEXT_LENGTH && parse(sql) == Some([SelectStatement(SHADOWING)])
    ensures Accepts(sql, {"event_type_counts"}, parse)
    ensures SYSTEM_REF in StoredRefs(SHADOWING, {}) && InSystemCatalog(SYSTEM_REF)
    ensures !IsPermitted(SYSTEM_REF, {"event_type_counts"})
  {
    ShadowingRefs();
    ShadowingFlat();
    ShadowingIsPlain();
    LowerIsIdentity("pg_catalog");
  }
}
