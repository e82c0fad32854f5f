# Request-to-SQL translation of a Flask-over-SQLite table service

The service has two POST endpoints. `/create_table` takes a table name and
parallel lists of column names and column types. `/write_query` takes a
table name, a list of column names and a list of JSON values. Each endpoint
pastes the request into SQL statement text and hands it to a
`DatabaseManager`, which runs it against a SQLite file. `create_table`
first refuses a table name the catalog already holds. Every exception
becomes HTTP 500 with its text under `"error"`.

This project models that translation and proves what the text it produces
means:

- `text.dfy` (module `Text`): the Python built-ins the builders use. These are
  `', '.join`, `str(int)` and, as the readers, `split` and integer reading.
- `clauses.dfy` (module `Clauses`): the column-definition clause (zip of
  names and types), the column-name clause and the value literals. It also
  holds the `CREATE TABLE` and `INSERT INTO` templates. Beside them sit a
  reader for SQL literals and a parser for the two statement shapes, so the
  lemmas can say when the text gives the request back.
- `gateway.dfy` (module `Gateway`): `DatabaseManager` as a class. Its catalog
  is a `set<string>` and it keeps the list of committed statements. SQLite's
  verdict on a statement text is a parameter `store: string -> Verdict`.
- `service.dfy` (module `Service`): the two routes. A request is a record
  whose fields are `None` when the JSON key is absent. A reply is a status
  and a `{"message"}` or `{"error"}` body.

## Model

| member | source | states |
|---|---|---|
| Text.SplitJoin | server.py:57 | `', '.join` can be undone. For at least one piece, when no piece holds the separator, splitting the joined text gives back exactly the pieces, in order. |
| Text.NatText | server.py:77 | `str(n)` of a non-negative integer is a non-empty run of digits with no leading zero, except "0" for zero. |
| Text.IntText | server.py:77 | `str(i)` of an integer is digits, after a leading minus sign only when the integer is negative. |
| Text.IntTextReads | server.py:77 | Reading the decimal text of any integer gives back that integer, as a mathematical integer; the 64-bit limit of SQL's reading is in `NumberLiteralReadsBack`. |
| Clauses.ColumnFragments | server.py:57 | The zip comprehension yields min(len(names), len(types)) fragments, and fragment i is `names[i] + " " + types[i]`. |
| Clauses.ColumnDefsTruncates | server.py:57 | Extra names or types are dropped. The clause equals the one built from the first min(len) of each list, and building it never fails. |
| Clauses.ColumnDefsSplit | server.py:57 | The column clause is the `"name type"` fragments, in input order, separated by ", ". This holds for at least one name and one type, whenever no `"name type"` fragment holds ", " (so `DECIMAL(10,2)` is fine). |
| Clauses.ColumnDefsSplitNoComma | server.py:57 | In particular the clause splits back into its fragments when no name or type has a comma at all. |
| Clauses.ColumnDefsExample | server.py:57 | `["id","name"]` with `["INTEGER","TEXT"]` gives `"id INTEGER, name TEXT"`. |
| Clauses.NamesClauseSplit | server.py:75 | For at least one name, the insert's column-name clause splits back into the given names when none holds ", ". (No names give "", which splits into one empty piece.) |
| Clauses.Literals | server.py:76-79 | The comprehension gives one literal per value, and literal i renders value i. |
| Clauses.ValuesClause | server.py:76-79 | The values clause is empty exactly when the value list is empty. |
| Clauses.StringLiteralReadsBack | server.py:77 | A string is quoted with no escaping. SQL reads the literal as that same string if and only if the string holds no single quote. |
| Clauses.NumberLiteralReadsBack | server.py:77 | An integer literal reads back as that integer if and only if the integer fits in signed 64 bits; otherwise SQLite reads it as a REAL. A boolean literal always reads back as 1 or 0. |
| Clauses.BoolLiteral | server.py:77 | The bool test comes before the generic `str(value)`. So `true` is "1" and `false` is "0", the same text as the integers 1 and 0, and never "True" or "False". |
| Clauses.ValuesClauseReadsBack | server.py:76-79 | For at least one value, the values clause splits into exactly one literal per value, in order. Each literal reads back as the value the request means, provided no string holds a quote or ", " and every integer fits in signed 64 bits. |
| Clauses.RenderParse | server.py:27-33 | Every text the statement parser accepts is exactly `CREATE TABLE t (c)` or `INSERT INTO t (c) VALUES (v)` rendered from the parts it returns. |
| Clauses.ParseRender | server.py:27-33 | A create or insert statement parses back to its table, columns and values if and only if the table name has no " (" and the insert's column text has no ") ". |
| Clauses.CreateTextAmbiguous | server.py:27 | Identifiers are pasted unquoted, so two different create requests can produce the same `CREATE TABLE` text. |
| Gateway.CreateOutcome | server.py:21-28 | `create_table` fails with "Table already exists" if and only if the catalog holds the name. It succeeds if and only if the name is new and the store accepts the CREATE text. |
| Gateway.InsertOutcome | server.py:30-34 | `insert_data` never reports "Table already exists". It succeeds if and only if the store accepts the INSERT text. |
| Gateway.DatabaseManager.constructor | server.py:6-7 | A manager starts with the catalog its file holds and no committed statements. |
| Gateway.DatabaseManager.TableExists | server.py:14-19 | `table_exists(n)` is true if and only if `n` is in the catalog. |
| Gateway.DatabaseManager.CreateTable | server.py:21-28 | A name already in the catalog fails and leaves everything unchanged. A new name that the store accepts adds exactly that name and commits exactly the CREATE text. Every table created through this manager keeps its committed CREATE statement (`Valid`); tables the file started with have none recorded. |
| Gateway.DatabaseManager.InsertData | server.py:30-34 | The catalog never changes. The exact INSERT text is committed when the store accepts it, and nothing otherwise. |
| Gateway.CreateTwice | server.py:21-23 | After a successful create, a second create of the same name fails with "Table already exists" whatever the store would say. |
| Service.MissingCreateKey | server.py:52-55 | A create request raises no KeyError if and only if all three keys are present. Otherwise the first missing key, in reading order, is reported: a key is named exactly when it is absent and every key read before it is present. |
| Service.MissingWriteKey | server.py:73-78 | A write request raises no KeyError if and only if all three keys are present. Otherwise the first missing key, in reading order, is reported: a key is named exactly when it is absent and every key read before it is present. |
| Service.Reply | server.py:58-68 | Status is 200 if and only if the database call succeeded. Every failure becomes 500 with an `"error"` body. |
| Service.APIService.constructor | server.py:43-46 | The service keeps the manager it was given. |
| Service.APIService.CreateTable | server.py:50-68 | A missing key gives 500 with the KeyError text and leaves the database unchanged. Otherwise the manager creates the table from the zipped column clause and the reply follows its outcome. |
| Service.APIService.WriteQuery | server.py:71-91 | A missing key gives 500 with the KeyError text. Otherwise the manager inserts with the joined names and formatted values and the reply follows its outcome. The catalog never changes. |
| Service.WriteQueryExample | test.py:48-54 | Columns `id`, `name` with values `1`, `"test_name"` give the clauses `"id, name"` and `"1, 'test_name'"`. |

## Left out

- SQLite itself is not modelled: connections, cursors, `commit`, parsing
  and type-checking of the statement text (server.py:9-12). Its verdict on
  each statement is the `store` parameter. Mismatched column and value
  counts, unknown tables and bad type names are therefore the store's to
  reject, as in the source.
- The catalog gains the name the request gave. SQLite records whatever name
  the statement text actually declares. A quoted (`"t"`), schema-qualified
  (`main.t`), space-padded (`t `) or injected table name makes these differ,
  and the model does not follow that. For such a name the `name=?` lookup
  (server.py:15-18) never matches, so a second create gets SQLite's own
  "table ... already exists" error rather than "Table already exists":
  `CreateOutcome` and `CreateTwice` hold in the source only for names SQLite
  records verbatim.
- `fetch_all` (server.py:36-40) is not modelled, because table rows are not
  modelled. Only the tests use it.
- `str(value)` of floats, `null` and nested JSON (server.py:77) is left out.
  Python's float formatting is outside the model, so values are strings,
  booleans and integers only.
- JSON bodies of the wrong shape are not modelled: the request records here
  are typed. In the source such a body does not always raise. A string given
  where a list is expected is iterated character by character by `zip`
  (server.py:57), by `join` (server.py:75) and by the comprehension
  (server.py:76-79), so `"ab"` becomes `"a, b"`. In /create_table a number,
  boolean or null table name passes the bound lookup (server.py:18) and is
  turned into text by the f-string (server.py:27); column names and types of
  any kind are formatted at server.py:57. These raise and so become 500: an
  array or object table name in /create_table (sqlite3 cannot bind it at
  server.py:18), a non-string column name in /write_query's `join`, a
  number, boolean or null where a list is expected, or a body that is not a
  JSON object.
- SQLite's REAL values are not modelled. An integer literal outside the
  signed 64-bit range is read as a REAL; `SqlReal` records only that this
  happens, not the rounded value.
- Flask routing, `jsonify`, `print` logging, `create_app`, creating the
  database file at startup and `app.run` (server.py:93-107) are left out.
  The constructor's `existing` catalog stands for whatever the file holds.
- The race between the existence check and the create is not modelled. Each
  request is one sequential call.

## Findings

None. The missing escaping of quotes and the unquoted identifiers are
inherent to the design, not slips. They are stated as properties instead
(`StringLiteralReadsBack`, `ParseRender`, `CreateTextAmbiguous`).
