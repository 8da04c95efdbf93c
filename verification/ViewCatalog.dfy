/** User-created view tables: what every run of create, replace and delete keeps. */
module ViewCatalog {
  import opened Wrappers
  import opened PythonText
  import opened SqlPolicy

  datatype Metadata = Metadata(description: string, source: Query)

  /**
    One database. `views` are all views of the schema `public`, generated and user-created, with
    their definitions; `tables` are its other relations; `system` are those of `pg_catalog`.
  */
  datatype Database = Database(
    name: string, system: set<string>, tables: set<string>, views: map<string, Query>, metadata: map<string, Metadata>)

  datatype ServiceError =
    | InvalidViewTableName
    | DescriptionTooLong
    | ReservedViewTableName
    | PolicyViolation(reason: Reason)
    | ExecutionUnavailable

  const BUILT_IN_DATASETS := [
    "event_type_counts", "user_event_counts", "hourly_event_counts",
    "error_event_ratio", "commerce_funnel_counts", "product_event_counts"]
  const SOURCE_RELATION := "events"
  const PUBLIC_SCHEMA := "public"
  const MAX_DESCRIPTION_LENGTH := 240

  predicate IsNameChar(c: char) {
    'a' <= c <= 'z' || '0' <= c <= '9' || c == '_'
  }

  /** A full match of `[a-z][a-z0-9_]{2,50}`. */
  predicate IsViewName(name: string) {
    && 3 <= |name| <= 51
    && 'a' <= name[0] <= 'z'
    && forall i :: 0 <= i < |name| ==> IsNameChar(name[i])
  }

  function NormalizedName(name: string): Result<string, ServiceError> {
    var normalized := Lower(Strip(name));
    if IsViewName(normalized) then Ok(normalized) else Err(InvalidViewTableName)
  }

  predicate IsReserved(name: string) {
    name in BUILT_IN_DATASETS || name == SOURCE_RELATION
  }

  // ---------------------------------------------------------------- the database transactions

  function Relations(db: Database): set<string> {
    db.tables + db.views.Keys
  }

  /** Whether a stored reference means a relation of `public`; `pg_catalog` is searched before it. */
  predicate IsPublic(db: Database, t: TableRef) {
    && (t.catalog.text == "" || Folded(t.catalog) == db.name)
    && if t.schema.text == "" then Folded(t.name) !in db.system else Folded(t.schema) == PUBLIC_SCHEMA
  }

  /** The relations of `public` a view body depends on, under the names PostgreSQL resolved. */
  function Sources(db: Database, q: Query): set<string> {
    set t | t in StoredRefs(q, {}) && IsPublic(db, t) :: Folded(t.name)
  }

  /** CREATE OR REPLACE VIEW needs its sources to exist and cannot replace something that is not a view. */
  predicate CreateAccepted(db: Database, name: string, q: Query) {
    name !in db.tables && Sources(db, q) <= Relations(db)
  }

  /**
    DROP VIEW IF EXISTS without CASCADE refuses what is not a view, a view another view depends
    on, and a name that means a system relation.
  */
  predicate DropAccepted(db: Database, name: string) {
    && name !in db.tables && name !in db.system
    && forall v :: v in db.views && v != name ==> name !in Sources(db, db.views[v])
  }

  /** `healthy` is false when the database refuses for any other reason; a refusal rolls back. */
  function CreateEffect(db: Database, name: string, description: string, q: Query, healthy: bool): Database {
    if healthy && CreateAccepted(db, name, q) then
      db.(views := db.views[name := q], metadata := db.metadata[name := Metadata(description, q)])
    else db
  }

  function DeleteEffect(db: Database, name: string, healthy: bool): Database {
    if healthy && DropAccepted(db, name) then
      db.(views := db.views - {name}, metadata := db.metadata - {name})
    else db
  }

  /** A transaction about `name` leaves all other views and their metadata as they were, and the tables too. */
  ghost predicate KeepsOthers(before: Database, after: Database, name: string) {
    && after.name == before.name && after.system == before.system && after.tables == before.tables
    && (forall v :: v != name ==> (v in after.views <==> v in before.views))
    && (forall v :: v != name ==> (v in after.metadata <==> v in before.metadata))
    && (forall v :: v != name && v in before.views ==> after.views[v] == before.views[v])
    && (forall v :: v != name && v in before.metadata ==> after.metadata[v] == before.metadata[v])
  }

  /** The database holds the view with this definition, recorded with this description. */
  ghost predicate Records(db: Database, name: string, description: string, q: Query) {
    && name in db.views && db.views[name] == q
    && name in db.metadata && db.metadata[name].description == description && db.metadata[name].source == q
  }

  // ---------------------------------------------------------------- soundness of the stored catalog

  /** The six generated views and what they are defined as. */
  ghost predicate AreBuiltIn(generated: map<string, Query>) {
    forall name :: name in generated <==> name in BUILT_IN_DATASETS
  }

  /**
    The generated views are as they were defined; metadata and user-created views describe each
    other; no view has the name of a table; and every relation a view reads still exists.
  */
  ghost predicate Sound(db: Database, generated: map<string, Query>) {
    && AreBuiltIn(generated) && SOURCE_RELATION in db.tables
    && (forall g :: g in generated ==> g in db.views && db.views[g] == generated[g])
    && db.metadata.Keys == db.views.Keys - generated.Keys
    && db.tables !! db.views.Keys
    && (forall v :: v in db.metadata ==> DescribesView(db, v))
    && SourcesExist(db)
  }

  ghost predicate DescribesView(db: Database, v: string)
    requires v in db.metadata
  {
    && v in db.views && db.metadata[v].source == db.views[v]
    && |db.metadata[v].description| <= MAX_DESCRIPTION_LENGTH
    && IsViewName(v)
  }

  /** Every relation a view reads still exists. */
  ghost predicate SourcesExist(db: Database) {
    forall v :: v in db.views ==> Sources(db, db.views[v]) <= Relations(db)
  }

  lemma AddKeepsSources(db: Database, name: string, description: string, q: Query)
    requires SourcesExist(db) && CreateAccepted(db, name, q)
    ensures SourcesExist(CreateEffect(db, name, description, q, true))
  {
    var after := CreateEffect(db, name, description, q, true);
    assert Relations(after) == Relations(db) + {name};
    forall v | v in after.views ensures Sources(after, after.views[v]) <= Relations(after) {
      assert Sources(after, after.views[v]) == Sources(db, after.views[v]);
    }
  }

  lemma DropKeepsSources(db: Database, name: string)
    requires SourcesExist(db) && DropAccepted(db, name)
    ensures SourcesExist(DeleteEffect(db, name, true))
  {
    var after := DeleteEffect(db, name, true);
    assert Relations(after) == Relations(db) - {name};
    forall v | v in after.views ensures Sources(after, after.views[v]) <= Relations(after) {
      assert Sources(after, after.views[v]) == Sources(db, db.views[v]);
    }
  }

  /** An accepted creation of a user view. */
  lemma AddKeepsSound(db: Database, generated: map<string, Query>, name: string, description: string, q: Query)
    requires Sound(db, generated) && IsViewName(name) && |description| <= MAX_DESCRIPTION_LENGTH
    requires CreateAccepted(db, name, q) && name !in generated
    ensures Sound(CreateEffect(db, name, description, q, true), generated)
  {
    var after := CreateEffect(db, name, description, q, true);
    AddKeepsSources(db, name, description, q);
    assert after.metadata.Keys == db.metadata.Keys + {name};
    assert after.views.Keys == db.views.Keys + {name};
    forall v | v in after.metadata ensures DescribesView(after, v) {
      if v != name {
        assert DescribesView(db, v);
      }
    }
  }

  /** An accepted deletion of a user view, or of nothing. */
  lemma DropKeepsSound(db: Database, generated: map<string, Query>, name: string)
    requires Sound(db, generated) && DropAccepted(db, name) && name !in generated
    ensures Sound(DeleteEffect(db, name, true), generated)
  {
    var after := DeleteEffect(db, name, true);
    DropKeepsSources(db, name);
    assert after.metadata.Keys == db.metadata.Keys - {name};
    assert after.views.Keys == db.views.Keys - {name};
    forall v | v in after.metadata ensures DescribesView(after, v) {
      assert DescribesView(db, v);
    }
  }

  /** Creating keeps the catalog sound exactly when it is refused or spares the generated views. */
  lemma CreateKeepsSoundIff(
    db: Database, generated: map<string, Query>, name: string, description: string, q: Query, healthy: bool)
    requires Sound(db, generated) && IsViewName(name) && |description| <= MAX_DESCRIPTION_LENGTH
    ensures Sound(CreateEffect(db, name, description, q, healthy), generated) <==>
            !(healthy && CreateAccepted(db, name, q)) || name !in generated
  {
    if healthy && CreateAccepted(db, name, q) {
      if name in generated {
        assert name in CreateEffect(db, name, description, q, healthy).metadata.Keys;
      } else {
        AddKeepsSound(db, generated, name, description, q);
      }
    }
  }

  /** Deleting keeps the catalog sound exactly when it is refused or spares the generated views. */
  lemma DeleteKeepsSoundIff(db: Database, generated: map<string, Query>, name: string, healthy: bool)
    requires Sound(db, generated)
    ensures Sound(DeleteEffect(db, name, healthy), generated) <==>
            !(healthy && DropAccepted(db, name)) || name !in generated
  {
    if healthy && DropAccepted(db, name) {
      if name in generated {
        assert name !in DeleteEffect(db, name, healthy).views;
      } else {
        DropKeepsSound(db, generated, name);
      }
    }
  }

  // ---------------------------------------------------------------- the service's checks

  /** A creation request the service passes on to the database. */
  ghost predicate CreatePasses(
    name: string, description: string, sql: string, catalogNames: set<string>, parse: string -> Option<seq<Statement>>)
  {
    && NormalizedName(name).Ok? && !IsReserved(NormalizedName(name).value)
    && |Strip(description)| <= MAX_DESCRIPTION_LENGTH
    && Accepts(sql, catalogNames + {SOURCE_RELATION}, parse)
  }

  /** The reason given for refusing one: the first check that fails. */
  ghost predicate CreateRefused(
    name: string, description: string, sql: string, catalogNames: set<string>,
    parse: string -> Option<seq<Statement>>, why: ServiceError)
  {
    if NormalizedName(name).Err? then why == InvalidViewTableName
    else if |Strip(description)| > MAX_DESCRIPTION_LENGTH then why == DescriptionTooLong
    else if IsReserved(NormalizedName(name).value) then why == ReservedViewTableName
    else why.PolicyViolation? && Refused(sql, catalogNames + {SOURCE_RELATION}, parse, why.reason)
  }

  class AnalyticsQueryRepository {
    var db: Database

    constructor (db: Database)
      ensures this.db == db
    {
      this.db := db;
    }

    /**
      One transaction: the view, its grant and its metadata, or nothing. A commit whose reply
      is lost (`reported` is false) has happened although the caller sees an error.
    */
    method CreateOrReplaceViewTable(name: string, description: string, q: Query, healthy: bool, reported: bool)
      returns (r: Result<(), ServiceError>)
      modifies this
      ensures db == CreateEffect(old(db), name, description, q, healthy)
      ensures healthy && CreateAccepted(old(db), name, q) ==> Records(db, name, description, q)
      ensures !(healthy && CreateAccepted(old(db), name, q)) ==> db == old(db)
      ensures KeepsOthers(old(db), db, name)
      ensures r == if reported && healthy && CreateAccepted(old(db), name, q) then Ok(()) else Err(ExecutionUnavailable)
    {
      var views, metadata := db.views[name := q], db.metadata[name := Metadata(description, q)];
      if !healthy || !CreateAccepted(db, name, q) {
        return Err(ExecutionUnavailable);
      }
      db := db.(views := views);
      db := db.(metadata := metadata);
      r := if reported then Ok(()) else Err(ExecutionUnavailable);
    }

    method DeleteViewTable(name: string, healthy: bool, reported: bool) returns (r: Result<(), ServiceError>)
      modifies this
      ensures db == DeleteEffect(old(db), name, healthy)
      ensures healthy && DropAccepted(old(db), name) ==> name !in db.views && name !in db.metadata
      ensures !(healthy && DropAccepted(old(db), name)) ==> db == old(db)
      ensures KeepsOthers(old(db), db, name)
      ensures r == if reported && healthy && DropAccepted(old(db), name) then Ok(()) else Err(ExecutionUnavailable)
    {
      if !healthy || !DropAccepted(db, name) {
        return Err(ExecutionUnavailable);
      }
      db := db.(views := db.views - {name});
      db := db.(metadata := db.metadata - {name});
      r := if reported then Ok(()) else Err(ExecutionUnavailable);
    }
  }

  class ViewTableService {
    const repository: AnalyticsQueryRepository

    constructor (repository: AnalyticsQueryRepository)
      ensures this.repository == repository
    {
      this.repository := repository;
    }

    /**
      `catalogNames` is what the catalog listed when the source was checked; by the time
      the transaction runs the database may have moved on. A refused request leaves the
      database alone; a request that passed the checks is one transaction.
    */
    method Create(
      name: string, description: string, sql: string, catalogNames: set<string>,
      parse: string -> Option<seq<Statement>>, healthy: bool, reported: bool)
      returns (r: Result<string, ServiceError>)
      modifies repository
      ensures forall generated :: Sound(old(repository.db), generated) ==> Sound(repository.db, generated)
      ensures !CreatePasses(name, description, sql, catalogNames, parse) ==>
                && repository.db == old(repository.db)
                && r.Err? && CreateRefused(name, description, sql, catalogNames, parse, r.error)
      ensures CreatePasses(name, description, sql, catalogNames, parse) ==>
                var view, q := NormalizedName(name).value, parse(sql).value[0].query;
                && repository.db == CreateEffect(old(repository.db), view, Strip(description), q, healthy)
                && KeepsOthers(old(repository.db), repository.db, view)
                && (healthy && CreateAccepted(old(repository.db), view, q) ==>
                     Records(repository.db, view, Strip(description), q))
                && r == if reported && healthy && CreateAccepted(old(repository.db), view, q) then Ok(view)
                        else Err(ExecutionUnavailable)
    {
      var normalized := NormalizedName(name);
      if normalized.Err? {
        return Err(normalized.error);
      }
      var trimmed := Strip(description);
      if |trimmed| > MAX_DESCRIPTION_LENGTH {
        return Err(DescriptionTooLong);
      }
      if IsReserved(normalized.value) {
        return Err(ReservedViewTableName);
      }
      var validated := Validate(sql, 1, Some(catalogNames + {SOURCE_RELATION}), {}, parse);
      if validated.Err? {
        return Err(PolicyViolation(validated.error));
      }
      forall generated | Sound(repository.db, generated)
        ensures Sound(CreateEffect(repository.db, normalized.value, trimmed, validated.value.query, healthy), generated)
      {
        CreateKeepsSoundIff(repository.db, generated, normalized.value, trimmed, validated.value.query, healthy);
      }
      var saved := repository.CreateOrReplaceViewTable(
        normalized.value, trimmed, validated.value.query, healthy, reported);
      if saved.Err? {
        return Err(saved.error);
      }
      return Ok(normalized.value);
    }

    method Delete(name: string, healthy: bool, reported: bool) returns (r: Result<(), ServiceError>)
      modifies repository
      ensures forall generated :: Sound(old(repository.db), generated) ==> Sound(repository.db, generated)
      ensures NormalizedName(name).Err? ==>
                repository.db == old(repository.db) && r == Err(InvalidViewTableName)
      ensures NormalizedName(name).Ok? && IsReserved(NormalizedName(name).value) ==>
                repository.db == old(repository.db) && r == Err(ReservedViewTableName)
      ensures NormalizedName(name).Ok? && !IsReserved(NormalizedName(name).value) ==>
                var view := NormalizedName(name).value;
                && repository.db == DeleteEffect(old(repository.db), view, healthy)
                && r == if reported && healthy && DropAccepted(old(repository.db), view) then Ok(())
                        else Err(ExecutionUnavailable)
    {
      var normalized := NormalizedName(name);
      if normalized.Err? {
        return Err(normalized.error);
      }
      if IsReserved(normalized.value) {
        return Err(ReservedViewTableName);
      }
      forall generated | Sound(repository.db, generated)
        ensures Sound(DeleteEffect(repository.db, normalized.value, healthy), generated)
      {
        DeleteKeepsSoundIff(repository.db, generated, normalized.value, healthy);
      }
      r := repository.DeleteViewTable(normalized.value, healthy, reported);
    }
  }

  // ---------------------------------------------------------------- what an accepted name means

  /**
    When a view is created `pg_catalog` is searched first. Everything an accepted text reads is
    then permitted and in `public` exactly when the references the walk skips are permitted and
    no name it reads is that of a system relation.
  */
  lemma AcceptedReadsPublicIff(
    db: Database, sql: string, allowed: set<string>, parse: string -> Option<seq<Statement>>)
    requires Accepts(sql, allowed, parse)
    ensures var q := parse(sql).value[0].query;
            (forall t :: t in StoredRefs(q, {}) ==> IsPermitted(t, allowed) && IsPublic(db, t)) <==>
            && (forall t :: t in StoredRefs(q, {}) && Key(t) in CteNames(q) ==> IsPermitted(t, allowed))
            && (forall t :: t in StoredRefs(q, {}) ==> Folded(t.name) !in db.system)
  {
    AcceptedReadsPermittedIff(sql, allowed, parse);
  }

  /** A caller's check: no allowed name is that of a system relation, and no name is shared with one defined by WITH. */
  lemma AllowlistAvoidsSystemNames(
    db: Database, sql: string, allowed: set<string>, parse: string -> Option<seq<Statement>>)
    requires Accepts(sql, allowed, parse)
    requires forall name :: name in db.system ==> Lower(name) !in allowed
    requires var q := parse(sql).value[0].query; StoredRelations(q) !! CteNames(q)
    ensures forall t :: t in StoredRefs(parse(sql).value[0].query, {}) ==> IsPermitted(t, allowed) && IsPublic(db, t)
  {
    AcceptedReadsOnlyAllowlisted(sql, allowed, parse);
    forall t | t in StoredRefs(parse(sql).value[0].query, {}) ensures IsPublic(db, t) {
      LowerLower(t.name.text);
      assert Lower(Folded(t.name)) == Key(t) && IsPermitted(t, allowed);
    }
  }

  /** Queries run with the search path `public, pg_catalog`: a name means the relation of `public` if there is one. */
  predicate IsPublicWhenRun(db: Database, t: TableRef) {
    && (t.catalog.text == "" || Folded(t.catalog) == db.name)
    && if t.schema.text == "" then Folded(t.name) in Relations(db) else Folded(t.schema) == PUBLIC_SCHEMA
  }

  /** When an accepted text is run, its permitted references mean existing relations of `public`, system names or not. */
  lemma AcceptedRunsOnPublic(
    db: Database, sql: string, allowed: set<string>, parse: string -> Option<seq<Statement>>)
    requires Accepts(sql, allowed, parse) && allowed <= Relations(db)
    ensures var q := parse(sql).value[0].query;
            forall t :: t in StoredRefs(q, {}) && Key(t) !in CteNames(q) && Folded(t.name) == Key(t) ==>
              IsPermitted(t, allowed) && IsPublicWhenRun(db, t)
  {
    var q := parse(sql).value[0].query;
    QuerySorted(q, {}, CteNames(q));
    forall t | t in StoredRefs(q, {}) && Key(t) !in CteNames(q) ensures IsPermitted(t, allowed) {
      assert Key(t) in FlatRelations(q);
    }
  }

  // SELECT ... FROM pg_user
  const SAVED_REF := TableRef(Ident("pg_user", false), ABSENT, ABSENT)
  const READS_SAVED := Query(false, [], [], [SAVED_REF], [], [])

  lemma SystemNameIsViewName()
    ensures NormalizedName("pg_user") == Ok("pg_user")
  {
    assert Strip("pg_user") == "pg_user";
    LowerIsIdentity("pg_user");
  }

  lemma SystemNameIsNotReserved()
    ensures !IsReserved("pg_user")
  {
    assert "pg_user"[0] == 'p' && "pg_user"[1] == 'g';
    assert "product_event_counts"[1] == 'r';
    assert SOURCE_RELATION[0] == 'e';
  }

  /** The service's checks let a view take the name of a system relation. */
  lemma SystemNamePasses(
    description: string, sql: string, catalogNames: set<string>, parse: string -> Option<seq<Statement>>)
    requires |Strip(description)| <= MAX_DESCRIPTION_LENGTH
    requires Accepts(sql, catalogNames + {SOURCE_RELATION}, parse)
    ensures CreatePasses("pg_user", description, sql, catalogNames, parse)
  {
    SystemNameIsViewName();
    SystemNameIsNotReserved();
  }

  lemma ReadsSavedRefs()
    ensures Tables(READS_SAVED) == [SAVED_REF] && CteNames(READS_SAVED) == {} && IsPlainSelect(READS_SAVED)
    ensures StoredRefs(READS_SAVED, {}) == [SAVED_REF]
  {
    var none: set<string> := {};
    assert none + FoldedAliases([]) == none;
    assert StoredHere([SAVED_REF], none) == [SAVED_REF];
    assert Features(READS_SAVED) == [];
    ShapeReasonMeaning(READS_SAVED);
  }

  /**
    Once it is saved, a text that reads it passes as well, and means the system relation where a
    view is created from it, but the saved view where it is run.
  */
  lemma SavedNameMeansSystemRelation(
    db: Database, sql: string, catalogNames: set<string>, parse: string -> Option<seq<Statement>>)
    requires "pg_user" in db.system && "pg_user" in db.views && "pg_user" in catalogNames
    requires |sql| <= MAX_QUERY_TEXT_LENGTH && parse(sql) == Some([SelectStatement(READS_SAVED)])
    ensures Accepts(sql, catalogNames + {SOURCE_RELATION}, parse)
    ensures StoredRelations(READS_SAVED) !! CteNames(READS_SAVED) && StoredRefs(READS_SAVED, {}) == [SAVED_REF]
    ensures IsPermitted(SAVED_REF, catalogNames + {SOURCE_RELATION})
    ensures !IsPublic(db, SAVED_REF) && IsPublicWhenRun(db, SAVED_REF)
  {
    LowerIsIdentity("pg_user");
    ReadsSavedRefs();
    assert FlatRelations(READS_SAVED) == {"pg_user"} by {
      assert SAVED_REF in Tables(READS_SAVED);
    }
  }

  // ---------------------------------------------------------------- every run keeps the catalog sound

  /** A transaction the service can start: its name and description passed the service's checks. */
  datatype Transaction =
    | CreateView(name: string, description: string, source: Query, healthy: bool)
    | DropView(name: string, healthy: bool)

  ghost predicate PassedChecks(t: Transaction) {
    && IsViewName(t.name) && !IsReserved(t.name)
    && (t.CreateView? ==> |t.description| <= MAX_DESCRIPTION_LENGTH)
  }

  function Effect(db: Database, t: Transaction): Database {
    match t
    case CreateView(name, description, source, healthy) => CreateEffect(db, name, description, source, healthy)
    case DropView(name, healthy) => DeleteEffect(db, name, healthy)
  }

  function RunAll(db: Database, ts: seq<Transaction>): Database {
    if ts == [] then db else Effect(RunAll(db, ts[..|ts| - 1]), ts[|ts| - 1])
  }

  /** Over every run the generated views survive unchanged and the catalog stays sound. */
  lemma {:induction false} EveryRunKeepsCatalogSound(
    db: Database, generated: map<string, Query>, ts: seq<Transaction>)
    requires Sound(db, generated) && forall k :: 0 <= k < |ts| ==> PassedChecks(ts[k])
    ensures Sound(RunAll(db, ts), generated)
  {
    if ts == [] {
    } else {
      EveryRunKeepsCatalogSound(db, generated, ts[..|ts| - 1]);
      var before := RunAll(db, ts[..|ts| - 1]);
      match ts[|ts| - 1]
      case CreateView(name, description, source, healthy) =>
        CreateKeepsSoundIff(before, generated, name, description, source, healthy);
      case DropView(name, healthy) => DeleteKeepsSoundIff(before, generated, name, healthy);
    }
  }

  /**
    In a sound catalog, wherever a view's definition reads a relation of `public`, unqualified and
    not called like a system relation or by its schema, that relation exists.
  */
  lemma SoundSourcesExist(db: Database, generated: map<string, Query>, v: string, t: TableRef, path: seq<Turn>)
    requires Sound(db, generated) && v in db.views && IsStoredAt(db.views[v], path, t, {})
    requires t.catalog.text == "" || Folded(t.catalog) == db.name
    requires (t.schema.text == "" && Folded(t.name) !in db.system) || (t.schema.text != "" && Folded(t.schema) == "public")
    ensures Folded(t.name) in db.tables || Folded(t.name) in db.views
  {
    StoredRefsMeaning(db.views[v], {}, t);
    assert IsStored(db.views[v], t, {});
    assert Folded(t.name) in Sources(db, db.views[v]);
  }

  /** The transaction is about `v` and was carried out. */
  ghost predicate TookEffect(db: Database, ts: seq<Transaction>, k: nat, v: string)
    requires k < |ts|
  {
    var before := RunAll(db, ts[..k]);
    && ts[k].name == v && ts[k].healthy
    && match ts[k]
       case CreateView(name, _, source, _) => CreateAccepted(before, name, source)
       case DropView(name, _) => DropAccepted(before, name)
  }

  ghost predicate IsLastEffect(db: Database, ts: seq<Transaction>, k: nat, v: string) {
    k < |ts| && TookEffect(db, ts, k, v) && forall j: nat :: k < j < |ts| ==> !TookEffect(db, ts, j, v)
  }

  ghost predicate SameRecord(a: Database, b: Database, v: string) {
    && (v in a.views <==> v in b.views) && (v in a.views ==> a.views[v] == b.views[v])
    && (v in a.metadata <==> v in b.metadata) && (v in a.metadata ==> a.metadata[v] == b.metadata[v])
  }

  /** What a transaction that took effect leaves recorded. */
  ghost predicate IsRecorded(db: Database, t: Transaction) {
    match t
    case CreateView(name, description, source, _) => Records(db, name, description, source)
    case DropView(name, _) => name !in db.views && name !in db.metadata
  }

  lemma TookEffectInit(db: Database, ts: seq<Transaction>, k: nat, v: string)
    requires k < |ts| - 1
    ensures TookEffect(db, ts, k, v) <==> TookEffect(db, ts[..|ts| - 1], k, v)
  {
    assert ts[..k] == ts[..|ts| - 1][..k];
  }

  lemma LastStep(db: Database, ts: seq<Transaction>, v: string)
    requires ts != []
    ensures var n := |ts| - 1;
            if TookEffect(db, ts, n, v) then IsRecorded(RunAll(db, ts), ts[n])
            else SameRecord(RunAll(db, ts), RunAll(db, ts[..n]), v)
  {
  }

  ghost predicate IsUntouched(db: Database, ts: seq<Transaction>, v: string) {
    forall k: nat :: k < |ts| ==> !TookEffect(db, ts, k, v)
  }

  lemma UntouchedInit(db: Database, ts: seq<Transaction>, v: string)
    requires ts != [] && IsUntouched(db, ts, v)
    ensures IsUntouched(db, ts[..|ts| - 1], v) && !TookEffect(db, ts, |ts| - 1, v)
  {
    var init := ts[..|ts| - 1];
    forall k: nat | k < |init| ensures !TookEffect(db, init, k, v) {
      TookEffectInit(db, ts, k, v);
    }
  }

  lemma LastEffectInit(db: Database, ts: seq<Transaction>, k: nat, v: string)
    requires IsLastEffect(db, ts, k, v) && k < |ts| - 1
    ensures IsLastEffect(db, ts[..|ts| - 1], k, v) && !TookEffect(db, ts, |ts| - 1, v) && ts[k].name == v
  {
    TookEffectInit(db, ts, k, v);
    var init := ts[..|ts| - 1];
    forall j: nat | k < j < |init| ensures !TookEffect(db, init, j, v) {
      TookEffectInit(db, ts, j, v);
    }
  }

  /** A name no transaction took effect on is as it was. */
  lemma {:induction false} UntouchedIsKept(db: Database, ts: seq<Transaction>, v: string)
    requires IsUntouched(db, ts, v)
    ensures SameRecord(RunAll(db, ts), db, v)
  {
    if ts == [] {
    } else {
      UntouchedInit(db, ts, v);
      UntouchedIsKept(db, ts[..|ts| - 1], v);
      LastStep(db, ts, v);
    }
  }

  /** After any run, each name is recorded as the last transaction that took effect on it left it. */
  lemma {:induction false} CatalogRecordsLastEffect(db: Database, ts: seq<Transaction>, k: nat, v: string)
    requires IsLastEffect(db, ts, k, v)
    ensures IsRecorded(RunAll(db, ts), ts[k])
  {
    LastStep(db, ts, v);
    if k == |ts| - 1 {
    } else {
      LastEffectInit(db, ts, k, v);
      CatalogRecordsLastEffect(db, ts[..|ts| - 1], k, v);
    }
  }

  /** A name that passes the checks is not that of a generated view or of the events table. */
  lemma PassedNameIsFree(
    generated: map<string, Query>, name: string, description: string, sql: string, catalogNames: set<string>,
    parse: string -> Option<seq<Statement>>)
    requires AreBuiltIn(generated) && CreatePasses(name, description, sql, catalogNames, parse)
    ensures NormalizedName(name).value !in generated && NormalizedName(name).value != "events"
  {
  }

  /** A name is taken trimmed and in small letters, when that is a letter and 2 to 50 letters, digits or underscores. */
  lemma NormalizedNameMeaning(left: string, core: string, right: string)
    requires AllSpace(left) && AllSpace(right) && IsTrimmed(core)
    ensures NormalizedName(left + core + right) ==
            if IsViewName(Lower(core)) then Ok(Lower(core)) else Err(InvalidViewTableName)
  {
    StripPadded(left, core, right);
  }

  /**
    A view that was just created can be deleted exactly when its name is not that of a system
    relation, and deleting it then restores the database.
  */
  lemma CreateThenDeleteRestores(
    db: Database, generated: map<string, Query>, name: string, description: string, q: Query)
    requires Sound(db, generated) && name !in db.views && CreateAccepted(db, name, q)
    ensures DropAccepted(CreateEffect(db, name, description, q, true), name) <==> name !in db.system
    ensures name !in db.system ==> DeleteEffect(CreateEffect(db, name, description, q, true), name, true) == db
  {
    var created := CreateEffect(db, name, description, q, true);
    assert name !in Relations(db);
    FreshViewHasNoDependents(db, name, description, q);
    RemoveAdded(db.views, name, q);
    RemoveAdded(db.metadata, name, Metadata(description, q));
  }

  lemma RemoveAdded<V>(m: map<string, V>, name: string, value: V)
    requires name !in m
    ensures m[name := value] - {name} == m
  {
  }

  lemma FreshViewHasNoDependents(db: Database, name: string, description: string, q: Query)
    requires SourcesExist(db) && name !in Relations(db) && CreateAccepted(db, name, q)
    ensures DropAccepted(CreateEffect(db, name, description, q, true), name) <==> name !in db.system
  {
    var created := CreateEffect(db, name, description, q, true);
    forall v | v in created.views && v != name ensures name !in Sources(created, created.views[v]) {
      assert Sources(created, created.views[v]) == Sources(db, db.views[v]);
    }
  }

  /** The dataset names users see are pairwise distinct, in whatever order the views are listed. */
  lemma CatalogNamesAreDistinct(db: Database, generated: map<string, Query>, listed: seq<string>)
    requires Sound(db, generated) && (forall v :: v in listed ==> v in db.metadata)
    requires NoDuplicates(listed)
    ensures NoDuplicates(BUILT_IN_DATASETS + listed)
  {
    var names, n := BUILT_IN_DATASETS + listed, |BUILT_IN_DATASETS|;
    forall i, j | 0 <= i < j < |names| ensures names[i] != names[j] {
      if j >= n {
        assert names[j] == listed[j - n] && listed[j - n] in listed;
        if i < n {
          assert BUILT_IN_DATASETS[i] in BUILT_IN_DATASETS;
        }
      } else {
        BuiltInsAreDistinct(i, j);
      }
    }
  }

  lemma BuiltInsAreDistinct(i: nat, j: nat)
    requires i < j < |BUILT_IN_DATASETS|
    ensures BUILT_IN_DATASETS[i] != BUILT_IN_DATASETS[j]
  {
    assert BUILT_IN_DATASETS[0][0] == 'e' && BUILT_IN_DATASETS[0][1] == 'v';
    assert BUILT_IN_DATASETS[1][0] == 'u';
    assert BUILT_IN_DATASETS[2][0] == 'h';
    assert BUILT_IN_DATASETS[3][0] == 'e' && BUILT_IN_DATASETS[3][1] == 'r';
    assert BUILT_IN_DATASETS[4][0] == 'c';
    assert BUILT_IN_DATASETS[5][0] == 'p';
  }
}
