/** The DatabaseManager of server.py over an abstract store: the catalog of
    table names the database file holds and the statements it has committed.
    What the store makes of a statement text (SQLite's parser, its type rules,
    the tables it really creates) is a parameter, `store`, applied to exactly
    the text the manager builds. */
module Gateway {
  import opened Clauses

  /** The store's answer to one statement: it commits the statement, or it
      raises sqlite3.Error with a message. */
  datatype Verdict = Accepted | Rejected(message: string)

  datatype DbError = AlreadyExists | StoreError(message: string)

  /** `str(e)` of the exception that reaches the route. */
  function ErrorText(e: DbError): string {
    match e
    case AlreadyExists => "Table already exists"
    case StoreError(m) => m
  }

  datatype Outcome = Done | Failed(error: DbError)

  /** What `create_table` ends in: a name the catalog holds is refused before
      the store sees anything; otherwise the store judges the CREATE TABLE
      text. "Table already exists" comes from the catalog and from nowhere
      else. */
  function CreateOutcome(catalog: set<string>, name: string, columns: string,
                         store: string -> Verdict): (r: Outcome)
    ensures r == Failed(AlreadyExists) <==> name in catalog
    ensures r == Done <==> name !in catalog && store(CreateStatement(name, columns)) == Accepted
  {
    if name in catalog then Failed(AlreadyExists)
    else match store(CreateStatement(name, columns))
      case Accepted => Done
      case Rejected(m) => Failed(StoreError(m))
  }

  /** What `insert_data` ends in: the catalog is not consulted, so an insert
      never fails with "Table already exists"; an unknown table, a count
      mismatch or a type error is the store's to reject. */
  function InsertOutcome(name: string, columns: string, values: string,
                         store: string -> Verdict): (r: Outcome)
    ensures r != Failed(AlreadyExists)
    ensures r == Done <==> store(InsertStatement(name, columns, values)) == Accepted
  {
    match store(InsertStatement(name, columns, values))
    case Accepted => Done
    case Rejected(m) => Failed(StoreError(m))
  }

  class DatabaseManager {
    /** The path of the database file. */
    const database: string
    /** The tables the file held when the manager was made. */
    const initial: set<string>
    /** The store's catalog: the names `table_exists` finds. */
    var tables: set<string>
    /** The statements the store has committed, oldest first. */
    var committed: seq<string>
    /** The column clause each table created through this manager was made with. */
    ghost var schema: map<string, string>

    /** Every table is one the file started with or one this manager created,
        and for the latter the committed statements hold its CREATE TABLE. */
    ghost predicate Valid()
      reads this
    {
      && tables == initial + schema.Keys
      && initial !! schema.Keys
      && forall t :: t in schema ==> CreateStatement(t, schema[t]) in committed
    }

    constructor (database: string, existing: set<string>)
      ensures Valid()
      ensures this.database == database && initial == existing
      ensures tables == existing && committed == [] && schema == map[]
    {
      this.database := database;
      initial := existing;
      tables := existing;
      committed := [];
      schema := map[];
    }

    /** `table_exists`: the catalog lookup is a bound parameter, so it answers
        for exactly the name given. */
    method TableExists(name: string) returns (present: bool)
      ensures present <==> name in tables
    {
      present := name in tables;
    }

    /** `create_table`: check the catalog, then run the CREATE TABLE text. On
        success the catalog gains exactly `name`; on any failure nothing
        changes. */
    method CreateTable(name: string, columns: string, store: string -> Verdict) returns (r: Outcome)
      requires Valid()
      modifies this
      ensures Valid()
      ensures r == CreateOutcome(old(tables), name, columns, store)
      ensures tables == if r == Done then old(tables) + {name} else old(tables)
      ensures committed == if r == Done then old(committed) + [CreateStatement(name, columns)]
                           else old(committed)
      ensures schema == if r == Done then old(schema)[name := columns] else old(schema)
    {
      var present := TableExists(name);
      if present {
        return Failed(AlreadyExists);
      }
      var statement := CreateStatement(name, columns);
      match store(statement)
      case Accepted =>
        tables := tables + {name};
        committed := committed + [statement];
        schema := schema[name := columns];
        r := Done;
      case Rejected(m) =>
        r := Failed(StoreError(m));
    }

    /** `insert_data`: run the INSERT INTO text. The catalog never changes; the
        statement is committed when the store accepts it. */
    method InsertData(name: string, columns: string, values: string, store: string -> Verdict)
      returns (r: Outcome)
      requires Valid()
      modifies this
      ensures Valid()
      ensures r == InsertOutcome(name, columns, values, store)
      ensures tables == old(tables) && schema == old(schema)
      ensures committed == if r == Done then old(committed) + [InsertStatement(name, columns, values)]
                           else old(committed)
    {
      var statement := InsertStatement(name, columns, values);
      match store(statement)
      case Accepted =>
        committed := committed + [statement];
        r := Done;
      case Rejected(m) =>
        r := Failed(StoreError(m));
    }
  }

  /** Creating the same name twice: the second attempt fails with "Table
      already exists" whatever the store would say, and leaves the manager as
      the first one left it. */
  method CreateTwice(db: DatabaseManager, name: string, columns: string, store: string -> Verdict)
    returns (first: Outcome, second: Outcome)
    requires db.Valid()
    modifies db
    ensures db.Valid()
    ensures first == Done ==> second == Failed(AlreadyExists)
    ensures first == Done ==> db.tables == old(db.tables) + {name}
    ensures name in old(db.tables) ==> first == second == Failed(AlreadyExists) && db.tables == old(db.tables)
  {
    first := db.CreateTable(name, columns, store);
    second := db.CreateTable(name, columns, store);
  }
}
