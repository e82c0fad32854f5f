/** The two routes APIService.setup_routes registers, /create_table and
    /write_query, from the decoded JSON body to the status and JSON body of
    the reply. Every exception, whether a missing key, "Table already exists"
    or an error of the store, becomes status 500 with its text under "error". */
module Service {
  import opened Text
  import opened Clauses
  import opened Gateway

  /** The fields /create_table reads; `None` is a key absent from the body. */
  datatype CreateRequest = CreateRequest(
    tableName: Option<string>,
    columnNames: Option<seq<string>>,
    columnTypes: Option<seq<string>>)

  /** The fields /write_query reads; `None` is a key absent from the body. */
  datatype WriteRequest = WriteRequest(
    tableName: Option<string>,
    columnNames: Option<seq<string>>,
    values: Option<seq<Scalar>>)

  /** The JSON object of a reply: `{"message": ...}` or `{"error": ...}`. */
  datatype Body = Message(message: string) | Error(error: string)

  datatype Response = Response(status: int, body: Body)

  const TableCreated: string := "Table created:)"
  const DataInserted: string := "Data inserted"

  /** `str(KeyError(key))`: the key between single quotes. */
  function KeyErrorText(key: string): string {
    "'" + key + "'"
  }

  /** The first key `data[...]` finds absent, in the order the route reads
      them; none when the request is complete. A key is reported exactly when
      it is absent and every key read before it is present. */
  function MissingCreateKey(req: CreateRequest): (r: Option<string>)
    ensures r.None? <==> req.tableName.Some? && req.columnNames.Some? && req.columnTypes.Some?
    ensures r == Some("table_name") <==> req.tableName.None?
    ensures r == Some("table_columns_names") <==> req.tableName.Some? && req.columnNames.None?
    ensures r == Some("table_columns_types") <==>
              req.tableName.Some? && req.columnNames.Some? && req.columnTypes.None?
  {
    if req.tableName.None? then Some("table_name")
    else if req.columnNames.None? then Some("table_columns_names")
    else if req.columnTypes.None? then Some("table_columns_types")
    else None
  }

  /** As for /create_table, with `values` read last. */
  function MissingWriteKey(req: WriteRequest): (r: Option<string>)
    ensures r.None? <==> req.tableName.Some? && req.columnNames.Some? && req.values.Some?
    ensures r == Some("table_name") <==> req.tableName.None?
    ensures r == Some("table_columns_names") <==> req.tableName.Some? && req.columnNames.None?
    ensures r == Some("values") <==> req.tableName.Some? && req.columnNames.Some? && req.values.None?
  {
    if req.tableName.None? then Some("table_name")
    else if req.columnNames.None? then Some("table_columns_names")
    else if req.values.None? then Some("values")
    else None
  }

  /** The reply to a finished database call: 200 with the route's message on
      success, 500 with the exception's text on every failure. */
  function Reply(o: Outcome, success: string): (r: Response)
    ensures r.status == 200 <==> o == Done
    ensures r.status != 200 ==> r.status == 500 && r.body.Error?
    ensures o == Failed(AlreadyExists) ==> r.body == Error("Table already exists")
  {
    if o == Done then Response(200, Message(success))
    else Response(500, Error(ErrorText(o.error)))
  }

  class APIService {
    const db: DatabaseManager

    constructor (db: DatabaseManager)
      ensures this.db == db
    {
      this.db := db;
    }

    /** /create_table: read the three keys, zip names with types into the
        column clause, and ask the manager to create the table. */
    method CreateTable(req: CreateRequest, store: string -> Verdict) returns (resp: Response)
      requires db.Valid()
      modifies db
      ensures db.Valid()
      ensures MissingCreateKey(req).Some? ==>
                && resp == Response(500, Error(KeyErrorText(MissingCreateKey(req).value)))
                && db.tables == old(db.tables) && db.committed == old(db.committed)
      ensures MissingCreateKey(req).None? ==>
                var name := req.tableName.value;
                var columns := ColumnDefs(req.columnNames.value, req.columnTypes.value);
                var o := CreateOutcome(old(db.tables), name, columns, store);
                && resp == Reply(o, TableCreated)
                && db.tables == (if o == Done then old(db.tables) + {name} else old(db.tables))
                && db.committed == (if o == Done then old(db.committed) + [CreateStatement(name, columns)]
                                    else old(db.committed))
    {
      var missing := MissingCreateKey(req);
      if missing.Some? {
        return Response(500, Error(KeyErrorText(missing.value)));
      }
      var columns := ColumnDefs(req.columnNames.value, req.columnTypes.value);
      var o := db.CreateTable(req.tableName.value, columns, store);
      resp := Reply(o, TableCreated);
    }

    /** /write_query: read the three keys, join the column names, render the
        values as literals, and ask the manager to insert. */
    method WriteQuery(req: WriteRequest, store: string -> Verdict) returns (resp: Response)
      requires db.Valid()
      modifies db
      ensures db.Valid()
      ensures db.tables == old(db.tables)
      ensures MissingWriteKey(req).Some? ==>
                && resp == Response(500, Error(KeyErrorText(MissingWriteKey(req).value)))
                && db.committed == old(db.committed)
      ensures MissingWriteKey(req).None? ==>
                var name := req.tableName.value;
                var columns := NamesClause(req.columnNames.value);
                var values := ValuesClause(req.values.value);
                var o := InsertOutcome(name, columns, values, store);
                && resp == Reply(o, DataInserted)
                && db.committed == (if o == Done then old(db.committed) + [InsertStatement(name, columns, values)]
                                    else old(db.committed))
    {
      var missing := MissingWriteKey(req);
      if missing.Some? {
        return Response(500, Error(KeyErrorText(missing.value)));
      }
      var columns := NamesClause(req.columnNames.value);
      var values := ValuesClause(req.values.value);
      var o := db.InsertData(req.tableName.value, columns, values, store);
      resp := Reply(o, DataInserted);
    }
  }

  /** The clauses of the insert in the test suite: columns id and name,
      values 1 and "test_name". */
  lemma WriteQueryExample()
    ensures NamesClause(["id", "name"]) == "id, name"
    ensures ValuesClause([Int(1), Str("test_name")]) == "1, 'test_name'"
  {
    var lits := Literals([Int(1), Str("test_name")]);
    assert NatText(1) == [DigitChar(1)] == "1";
    assert lits[0] == "1";
    assert lits[1] == "'" + "test_name" + "'" == "'test_name'";
    assert lits == ["1", "'test_name'"];
    assert ValuesClause([Int(1), Str("test_name")]) == "1, 'test_name'";
    assert NamesClause(["id", "name"]) == "id" + Sep + Join(["name"], Sep) == "id, name";
  }
}
