/** The statement text the two endpoints of server.py build from a JSON
    request: the column-definition clause of /create_table, the column-name
    and value clauses of /write_query, and the CREATE TABLE and INSERT INTO
    templates. Beside each builder stands a reader (split, literal reading,
    statement parsing) and the lemmas say when reading gives the request back. */
module Clauses {
  import opened Text

  /** Every clause is joined with `', '.join(...)`. */
  const Sep: string := ", "

  /** A JSON scalar of the `values` list of an insert request. */
  datatype Scalar = Str(s: string) | Bool(b: bool) | Int(n: int)

  function Min(a: nat, b: nat): nat {
    if a <= b then a else b
  }

  /** `[f"{name} {col_type}" for name, col_type in zip(names, types)]`: zip
      pairs the lists from the front and stops at the end of the shorter. */
  function ColumnFragments(names: seq<string>, types: seq<string>): (r: seq<string>)
    ensures |r| == Min(|names|, |types|)
    ensures forall i :: 0 <= i < |r| ==> r[i] == names[i] + " " + types[i]
  {
    if |names| == 0 || |types| == 0 then []
    else [names[0] + " " + types[0]] + ColumnFragments(names[1..], types[1..])
  }

  /** The `columns` text of /create_table. */
  function ColumnDefs(names: seq<string>, types: seq<string>): string {
    Join(ColumnFragments(names, types), Sep)
  }

  /** The `table_columns_names` text of /write_query. */
  function NamesClause(names: seq<string>): string {
    Join(names, Sep)
  }

  /** One value as the insert statement spells it: a string between single
      quotes with nothing escaped; a boolean through `str(int(value))`, a test
      made before the generic branch; anything else through `str(value)`. */
  function Literal(v: Scalar): string {
    match v
    case Str(s) => "'" + s + "'"
    case Bool(b) => IntText(if b then 1 else 0)
    case Int(n) => IntText(n)
  }

  /** The list comprehension over `data['values']`. */
  function Literals(vs: seq<Scalar>): (r: seq<string>)
    ensures |r| == |vs|
    ensures forall i :: 0 <= i < |r| ==> r[i] == Literal(vs[i])
  {
    if |vs| == 0 then [] else [Literal(vs[0])] + Literals(vs[1..])
  }

  /** The `values` text of /write_query; empty exactly when there are no
      values, since no literal is empty. */
  function ValuesClause(vs: seq<Scalar>): (r: string)
    ensures r == "" <==> |vs| == 0
  {
    var lits := Literals(vs);
    assert |vs| > 0 ==> |Join(lits, Sep)| >= |lits[0]| > 0;
    Join(lits, Sep)
  }

  /** `f"CREATE TABLE {table_name} ({columns})"`. */
  function CreateStatement(table: string, columns: string): string {
    "CREATE TABLE " + table + " (" + columns + ")"
  }

  /** `f"INSERT INTO {table_name} ({columns}) VALUES ({values})"`. */
  function InsertStatement(table: string, columns: string, values: string): string {
    "INSERT INTO " + table + " (" + columns + ") VALUES (" + values + ")"
  }

  // ---------------------------------------------------------------------
  // Column clauses

  /** zip drops the surplus of the longer list: the clause is the one built
      from the first min(len) names and types, and building it never fails. */
  lemma ColumnDefsTruncates(names: seq<string>, types: seq<string>)
    ensures var k := Min(|names|, |types|);
            ColumnDefs(names, types) == ColumnDefs(names[..k], types[..k])
  {
    var k := Min(|names|, |types|);
    var a := ColumnFragments(names, types);
    var b := ColumnFragments(names[..k], types[..k]);
    assert |a| == |b|;
    forall i | 0 <= i < |a| ensures a[i] == b[i] {
      assert names[..k][i] == names[i] && types[..k][i] == types[i];
    }
    assert a == b;
  }

  lemma NoCommaNoSep(t: string)
    requires ',' !in t
    ensures !Contains(t, Sep)
  {
    forall j: nat | j + 2 <= |t| ensures !OccursAt(t, Sep, j) {
      assert t[j..j + 2][0] == t[j] != ',';
    }
  }

  /** Read back with `split(', ')`, the column clause gives the `"name type"`
      fragments of the pairs, in input order, when no fragment holds ", "
      (a type such as `DECIMAL(10,2)` is fine). */
  lemma ColumnDefsSplit(names: seq<string>, types: seq<string>)
    requires Min(|names|, |types|) > 0
    requires forall i :: 0 <= i < Min(|names|, |types|) ==> !Contains(names[i] + " " + types[i], Sep)
    ensures var pieces := Split(ColumnDefs(names, types), Sep);
            |pieces| == Min(|names|, |types|) &&
            forall i :: 0 <= i < |pieces| ==> pieces[i] == names[i] + " " + types[i]
  {
    var frags := ColumnFragments(names, types);
    forall i | 0 <= i < |frags| ensures !Contains(frags[i], Sep) {
      assert frags[i] == names[i] + " " + types[i];
    }
    SplitJoin(frags, Sep);
  }

  /** In particular the clause splits back when no name or type holds a
      comma at all. */
  lemma ColumnDefsSplitNoComma(names: seq<string>, types: seq<string>)
    requires Min(|names|, |types|) > 0
    requires forall i :: 0 <= i < |names| ==> ',' !in names[i]
    requires forall i :: 0 <= i < |types| ==> ',' !in types[i]
    ensures var pieces := Split(ColumnDefs(names, types), Sep);
            |pieces| == Min(|names|, |types|) &&
            forall i :: 0 <= i < |pieces| ==> pieces[i] == names[i] + " " + types[i]
  {
    forall i | 0 <= i < Min(|names|, |types|) ensures !Contains(names[i] + " " + types[i], Sep) {
      assert ',' !in names[i] + " " + types[i];
      NoCommaNoSep(names[i] + " " + types[i]);
    }
    ColumnDefsSplit(names, types);
  }

  /** The column names of an insert come back from `split(', ')` unchanged
      when none of them holds ", ". */
  lemma NamesClauseSplit(names: seq<string>)
    requires |names| > 0
    requires forall i :: 0 <= i < |names| ==> !Contains(names[i], Sep)
    ensures Split(NamesClause(names), Sep) == names
  {
    SplitJoin(names, Sep);
  }

  /** The create request of the test suite. */
  lemma ColumnDefsExample()
    ensures ColumnDefs(["id", "name"], ["INTEGER", "TEXT"]) == "id INTEGER, name TEXT"
  {
    var f := ColumnFragments(["id", "name"], ["INTEGER", "TEXT"]);
    assert f[0] == "id INTEGER" && f[1] == "name TEXT";
    assert f == ["id INTEGER", "name TEXT"];
    assert Join(f, Sep) == "id INTEGER" + Sep + Join(["name TEXT"], Sep);
  }

  // ---------------------------------------------------------------------
  // Value literals and how SQL reads them

  /** A value as SQL holds it. SQLite reads an integer literal that does not
      fit in a signed 64-bit integer as a REAL; `SqlReal(approx)` stands for
      that REAL, whose floating-point rounding of `approx` is not modelled. */
  datatype SqlValue = SqlText(t: string) | SqlInteger(n: int) | SqlReal(approx: int)

  /** The range of SQLite's INTEGER storage class. */
  predicate InInt64(n: int) {
    -0x8000_0000_0000_0000 <= n < 0x8000_0000_0000_0000
  }

  /** The SQL value an insert request means: its string, its integer, and for
      a boolean the integer 1 or 0 that the source coerces it to. */
  function Denotes(v: Scalar): SqlValue {
    match v
    case Str(s) => SqlText(s)
    case Bool(b) => SqlInteger(if b then 1 else 0)
    case Int(n) => SqlInteger(n)
  }

  /** The inside of an SQL string literal: two quotes in a row stand for one
      quote, and a quote on its own would end the literal early. */
  function Unquote(body: string): Option<string>
    decreases |body|
  {
    if |body| == 0 then Some("")
    else if body[0] == '\'' then
      if |body| >= 2 && body[1] == '\'' then
        match Unquote(body[2..])
        case Some(t) => Some("'" + t)
        case None => None
      else None
    else
      match Unquote(body[1..])
      case Some(t) => Some([body[0]] + t)
      case None => None
  }

  /** How SQL reads one literal: a quoted string, or a decimal integer that
      is an INTEGER within the signed 64-bit range and a REAL outside it. */
  function ReadLiteral(lit: string): Option<SqlValue> {
    if |lit| >= 2 && lit[0] == '\'' && lit[|lit| - 1] == '\'' then
      match Unquote(lit[1..|lit| - 1])
      case Some(t) => Some(SqlText(t))
      case None => None
    else
      match ReadInteger(lit)
      case Some(n) => Some(if InInt64(n) then SqlInteger(n) else SqlReal(n))
      case None => None
  }

  lemma {:induction false} UnquotePlain(body: string)
    requires '\'' !in body
    ensures Unquote(body) == Some(body)
    decreases |body|
  {
    if |body| > 0 {
      UnquotePlain(body[1..]);
      assert [body[0]] + body[1..] == body;
    }
  }

  /** Unquoting never lengthens, and it shortens whenever there is a quote. */
  lemma {:induction false} UnquoteShrinks(body: string)
    requires Unquote(body).Some?
    ensures |Unquote(body).value| <= |body|
    ensures '\'' in body ==> |Unquote(body).value| < |body|
    decreases |body|
  {
    if |body| > 0 {
      if body[0] == '\'' {
        UnquoteShrinks(body[2..]);
      } else {
        UnquoteShrinks(body[1..]);
        assert '\'' in body ==> '\'' in body[1..];
      }
    }
  }

  /** A string value reaches SQL as itself exactly when it holds no single
      quote: the literal is built without escaping, so a quote inside it ends
      the literal early or collapses with its neighbour. */
  lemma StringLiteralReadsBack(s: string)
    ensures ReadLiteral(Literal(Str(s))) == Some(SqlText(s)) <==> '\'' !in s
  {
    var lit := Literal(Str(s));
    assert lit[1..|lit| - 1] == s;
    if '\'' !in s {
      UnquotePlain(s);
    } else if Unquote(s).Some? {
      UnquoteShrinks(s);
    }
  }

  /** An integer reaches SQL as the integer the request means exactly when it
      fits in 64 bits, and as a REAL otherwise; a boolean always arrives as 1
      or 0, never as "True" or "False". */
  lemma NumberLiteralReadsBack(v: Scalar)
    requires !v.Str?
    ensures ReadLiteral(Literal(v)) == Some(Denotes(v)) <==> v.Bool? || InInt64(v.n)
    ensures v.Int? && !InInt64(v.n) ==> ReadLiteral(Literal(v)) == Some(SqlReal(v.n))
  {
    var n := if v.Bool? then (if v.b then 1 else 0) else v.n;
    IntTextReads(n);
    assert Literal(v) == IntText(n);
    assert Literal(v)[0] != '\'';
  }

  /** The boolean test comes before the generic one: `true` is spelled "1" and
      `false` "0", the same text as the integers 1 and 0. */
  lemma BoolLiteral(b: bool)
    ensures Literal(Bool(b)) == (if b then "1" else "0")
    ensures Literal(Bool(b)) == Literal(Int(if b then 1 else 0))
    ensures Literal(Bool(b)) != "True" && Literal(Bool(b)) != "False"
  {
    assert NatText(if b then 1 else 0) == [DigitChar(if b then 1 else 0)];
  }

  /** A value whose literal survives reading and splitting: a string without
      a single quote and without ", ", or an integer within 64 bits. */
  ghost predicate Plain(v: Scalar) {
    && (v.Str? ==> '\'' !in v.s && !Contains(v.s, Sep))
    && (v.Int? ==> InInt64(v.n))
  }

  lemma LiteralHasNoSep(v: Scalar)
    requires Plain(v)
    ensures !Contains(Literal(v), Sep)
  {
    var lit := Literal(v);
    if v.Str? {
      forall j: nat | OccursAt(lit, Sep, j) ensures false {
        assert lit[j..j + 2][0] == lit[j] && lit[j..j + 2][1] == lit[j + 1];
        assert 1 <= j && j + 2 <= |v.s| + 1;
        assert v.s[j - 1..j + 1] == lit[j..j + 2];
        assert OccursAt(v.s, Sep, j - 1);
      }
    } else {
      assert ',' !in lit;
      NoCommaNoSep(lit);
    }
  }

  /** The values clause holds one literal per value, in input order: split on
      ", " and read literal by literal, it gives back what the request means,
      provided no string holds a quote or ", " and every integer fits in 64
      bits. */
  lemma ValuesClauseReadsBack(vs: seq<Scalar>)
    requires |vs| > 0
    requires forall i :: 0 <= i < |vs| ==> Plain(vs[i])
    ensures var pieces := Split(ValuesClause(vs), Sep);
            |pieces| == |vs| &&
            forall i :: 0 <= i < |vs| ==> ReadLiteral(pieces[i]) == Some(Denotes(vs[i]))
  {
    var lits := Literals(vs);
    forall i | 0 <= i < |lits| ensures !Contains(lits[i], Sep) {
      LiteralHasNoSep(vs[i]);
    }
    SplitJoin(lits, Sep);
    forall i | 0 <= i < |vs| ensures ReadLiteral(lits[i]) == Some(Denotes(vs[i])) {
      if vs[i].Str? {
        StringLiteralReadsBack(vs[i].s);
      } else {
        NumberLiteralReadsBack(vs[i]);
      }
    }
  }

  // ---------------------------------------------------------------------
  // Statements

  /** A statement the gateway sends to the store. */
  datatype Statement =
    | CreateStmt(table: string, columns: string)
    | InsertStmt(table: string, columns: string, values: string)

  function Render(st: Statement): string {
    match st
    case CreateStmt(t, c) => CreateStatement(t, c)
    case InsertStmt(t, c, v) => InsertStatement(t, c, v)
  }

  const CreateHead: string := "CREATE TABLE "
  const InsertHead: string := "INSERT INTO "
  const ValuesHead: string := "VALUES ("

  predicate StartsWith(s: string, prefix: string) {
    |prefix| <= |s| && s[..|prefix|] == prefix
  }

  function ParseCreateBody(body: string): Option<Statement> {
    match Find(body, " (")
    case None => None
    case Some(k) => Some(CreateStmt(body[..k], body[k + 2..]))
  }

  /** What follows the table name and " (" in an insert: the columns up to
      the first ") ", then "VALUES (" and the values. */
  function ParseInsertRest(table: string, rest: string): Option<Statement> {
    match Find(rest, ") ")
    case None => None
    case Some(m) =>
      var tail := rest[m + 2..];
      if StartsWith(tail, ValuesHead) then Some(InsertStmt(table, rest[..m], tail[|ValuesHead|..]))
      else None
  }

  function ParseInsertBody(body: string): Option<Statement> {
    match Find(body, " (")
    case None => None
    case Some(k) => ParseInsertRest(body[..k], body[k + 2..])
  }

  /** Takes a statement text apart at the first " (" after the table name
      and, for an insert, at the first ") " after the column names. */
  function ParseStatement(text: string): Option<Statement> {
    if |text| == 0 || text[|text| - 1] != ')' then None
    else if |CreateHead| < |text| && StartsWith(text, CreateHead) then
      ParseCreateBody(text[|CreateHead|..|text| - 1])
    else if |InsertHead| < |text| && StartsWith(text, InsertHead) then
      ParseInsertBody(text[|InsertHead|..|text| - 1])
    else None
  }

  /** Identifiers that cannot be mistaken for statement syntax: a table name
      without " (" and, in an insert, column names without ") ". */
  ghost predicate PlainIdentifiers(st: Statement) {
    !Contains(st.table, " (") && (st.InsertStmt? ==> !Contains(st.columns, ") "))
  }

  lemma OccursInPrefix(p: string, q: string, sep: string, j: nat)
    requires OccursAt(p, sep, j)
    ensures OccursAt(p + q, sep, j)
  {
    assert (p + q)[j..j + |sep|] == p[j..j + |sep|];
  }

  /** When `p` contains `sep`, the first `sep` of `p + q` lies inside `p`. */
  lemma FindInsidePrefix(p: string, q: string, sep: string)
    requires |sep| > 0 && Contains(p, sep)
    ensures Find(p + q, sep).Some? && Find(p + q, sep).value < |p|
  {
    var j: nat :| OccursAt(p, sep, j);
    OccursInPrefix(p, q, sep, j);
  }

  /** A create body the parser accepts is the table, " (" and the columns. */
  lemma CreateBodySound(body: string)
    requires ParseCreateBody(body).Some?
    ensures var st := ParseCreateBody(body).value;
            st.CreateStmt? && st.table + " (" + st.columns == body
  {
    CutAt(body, " (", Find(body, " (").value);
  }

  /** An insert body the parser accepts is the table, " (", the columns,
      ") " and "VALUES (" and the values. */
  lemma InsertBodySound(body: string)
    requires ParseInsertBody(body).Some?
    ensures var st := ParseInsertBody(body).value;
            st.InsertStmt? && st.table + " (" + (st.columns + ") " + (ValuesHead + st.values)) == body
  {
    var k := Find(body, " (").value;
    var rest := body[k + 2..];
    assert ParseInsertRest(body[..k], rest).Some?;
    var m := Find(rest, ") ").value;
    var tail := rest[m + 2..];
    CutAt(body, " (", k);
    CutAt(rest, ") ", m);
    CutAt(tail, ValuesHead, 0);
  }

  /** A text that starts with `head` and ends with ")" is `head`, what lies
      between, and ")". */
  lemma Framed(text: string, head: string)
    requires |head| < |text| && StartsWith(text, head) && text[|text| - 1] == ')'
    ensures text == head + text[|head|..|text| - 1] + ")"
  {
  }

  /** The insert template, regrouped the way the parser reads it. */
  lemma InsertRegrouped(t: string, c: string, v: string)
    ensures InsertStatement(t, c, v) == InsertHead + (t + " (" + (c + ") " + (ValuesHead + v))) + ")"
  {
    assert ") VALUES (" == ") " + ValuesHead;
  }

  /** The create template, grouped the way the parser reads it. */
  lemma CreateRegrouped(t: string, c: string)
    ensures CreateStatement(t, c) == CreateHead + (t + " (" + c) + ")"
  {
  }

  lemma CreateTextSound(text: string)
    requires |CreateHead| < |text| && StartsWith(text, CreateHead) && text[|text| - 1] == ')'
    requires ParseCreateBody(text[|CreateHead|..|text| - 1]).Some?
    ensures Render(ParseCreateBody(text[|CreateHead|..|text| - 1]).value) == text
  {
    var body := text[|CreateHead|..|text| - 1];
    Framed(text, CreateHead);
    CreateBodySound(body);
    var st := ParseCreateBody(body).value;
    CreateRegrouped(st.table, st.columns);
  }

  lemma InsertTextSound(text: string)
    requires |InsertHead| < |text| && StartsWith(text, InsertHead) && text[|text| - 1] == ')'
    requires ParseInsertBody(text[|InsertHead|..|text| - 1]).Some?
    ensures Render(ParseInsertBody(text[|InsertHead|..|text| - 1]).value) == text
  {
    var body := text[|InsertHead|..|text| - 1];
    Framed(text, InsertHead);
    InsertBodySound(body);
    var st := ParseInsertBody(body).value;
    InsertRegrouped(st.table, st.columns, st.values);
  }

  /** Every statement text the parser accepts is the rendering of what it
      returns: parsing loses nothing. */
  lemma RenderParse(text: string)
    requires ParseStatement(text).Some?
    ensures Render(ParseStatement(text).value) == text
  {
    if |CreateHead| < |text| && StartsWith(text, CreateHead) {
      CreateTextSound(text);
    } else {
      InsertTextSound(text);
    }
  }

  /** The parser strips the CREATE TABLE frame off a rendered create. */
  lemma ParseCreateText(t: string, c: string)
    ensures ParseStatement(CreateStatement(t, c)) == ParseCreateBody(t + " (" + c)
  {
    var text := CreateStatement(t, c);
    CreateRegrouped(t, c);
    assert text[|CreateHead|..|text| - 1] == t + " (" + c;
    assert StartsWith(text, CreateHead);
  }

  /** The parser strips the INSERT INTO frame off a rendered insert. */
  lemma ParseInsertText(t: string, c: string, v: string)
    ensures ParseStatement(InsertStatement(t, c, v)) == ParseInsertBody(t + " (" + (c + ") " + (ValuesHead + v)))
  {
    var text := InsertStatement(t, c, v);
    var body := t + " (" + (c + ") " + (ValuesHead + v));
    InsertRegrouped(t, c, v);
    assert text[|InsertHead|..|text| - 1] == body;
    assert text[0] != CreateHead[0];
    assert StartsWith(text, InsertHead);
  }

  lemma CreateBodyExact(t: string, c: string)
    ensures ParseCreateBody(t + " (" + c) == Some(CreateStmt(t, c)) <==> !Contains(t, " (")
  {
    var body := t + " (" + c;
    if !Contains(t, " (") {
      FindAfterPiece(t, " (", c);
      assert body[..|t|] == t && body[|t| + 2..] == c;
    } else {
      FindInsidePrefix(t, " (" + c, " (");
      assert body == t + (" (" + c);
    }
  }

  /** The columns and values come back exactly when the column text holds
      no ") ". */
  lemma InsertRestExact(t: string, c: string, v: string)
    ensures ParseInsertRest(t, c + ") " + (ValuesHead + v)) == Some(InsertStmt(t, c, v))
            <==> !Contains(c, ") ")
  {
    var tail := ValuesHead + v;
    var rest := c + ") " + tail;
    if !Contains(c, ") ") {
      FindAfterPiece(c, ") ", tail);
      assert rest[..|c|] == c && rest[|c| + 2..] == tail;
      assert tail[|ValuesHead|..] == v;
    } else {
      FindInsidePrefix(c, ") " + tail, ") ");
      assert rest == c + (") " + tail);
    }
  }

  /** Behind a plain table name the parser reads the rest of the body. */
  lemma InsertBodyAfterTable(t: string, rest: string)
    requires !Contains(t, " (")
    ensures ParseInsertBody(t + " (" + rest) == ParseInsertRest(t, rest)
  {
    var body := t + " (" + rest;
    FindAfterPiece(t, " (", rest);
    assert body[..|t|] == t && body[|t| + 2..] == rest;
  }

  lemma InsertBodyExact(t: string, c: string, v: string)
    ensures ParseInsertBody(t + " (" + (c + ") " + (ValuesHead + v))) == Some(InsertStmt(t, c, v))
            <==> !Contains(t, " (") && !Contains(c, ") ")
  {
    var rest := c + ") " + (ValuesHead + v);
    if !Contains(t, " (") {
      InsertBodyAfterTable(t, rest);
      InsertRestExact(t, c, v);
    } else {
      FindInsidePrefix(t, " (" + rest, " (");
      assert t + " (" + rest == t + (" (" + rest);
    }
  }

  /** A statement comes back from its text exactly when its identifiers are
      plain. Table and column names are pasted into the text unquoted, so a
      name holding " (" or ") " moves the clause boundaries. */
  lemma ParseRender(st: Statement)
    ensures ParseStatement(Render(st)) == Some(st) <==> PlainIdentifiers(st)
  {
    match st
    case CreateStmt(t, c) =>
      ParseCreateText(t, c);
      CreateBodyExact(t, c);
    case InsertStmt(t, c, v) =>
      ParseInsertText(t, c, v);
      InsertBodyExact(t, c, v);
  }

  /** Two different create requests can produce the same statement text:
      identifiers are not quoted, so the text does not determine the request. */
  lemma CreateTextAmbiguous()
    ensures CreateStmt("t (x", "y") != CreateStmt("t", "x (y")
    ensures Render(CreateStmt("t (x", "y")) == Render(CreateStmt("t", "x (y"))
  {
  }
}
