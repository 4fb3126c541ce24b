/** The allow-list SQL builders of src/helpers/index.ts: identifier quoting,
    the per-table column allow-list, and UPDATE / INSERT statements whose
    `?` placeholders line up with their parameter list.  Thrown errors are
    `Err` values; a statement that would be sent to MySQL is `Ok`. */
module SqlBuilder {
  import opened Common
  import opened Strings

  /** A JavaScript value placed in a payload or a parameter list. */
  datatype Value = Undefined | Null | Int(i: int) | Text(s: string)

  /** The entries of a plain object, in `Object.entries` order (distinct keys). */
  type Fields = seq<(string, Value)>

  /** An element of the array form of `updateRow`'s payload. */
  datatype Element = Object(fields: Fields) | NullElement | ArrayElement | Scalar

  /** `updateRow` takes an object or an array. */
  datatype Payload = Single(fields: Fields) | Many(items: seq<Element>)

  /** A statement and the parameters bound to its `?` placeholders. */
  datatype Query = Query(sql: string, params: seq<Value>)

  datatype SqlError =
    | InvalidTable
    | InvalidIdentifier
    | BadPayload
    | NoFieldsToUpdate
    | NoFieldsToInsert
    | NoRows
    | InvalidColumn(table: string, column: string)

  /** The message of the Error each builder throws. */
  function Message(e: SqlError): string
  {
    match e
    case InvalidTable => "Invalid table"
    case InvalidIdentifier => "Invalid identifier"
    case BadPayload => "Data must be an object or an array containing exactly one object."
    case NoFieldsToUpdate => "No fields provided to update."
    case NoFieldsToInsert => "No fields provided to insert."
    case NoRows => "No rows provided to insert."
    case InvalidColumn(t, c) => "Invalid column for " + t + ": " + c
  }

  /** Table name to the columns the builders accept for it. */
  type Schema = map<string, seq<string>>

  /** VALID_COLUMNS as the repository declares it. */
  const ValidColumns: Schema := map[
    "users" := ["id", "first_name", "last_name", "email", "user_password", "phone",
                "email_verified", "register_time"],
    "user_security" := ["id", "user_id", "secret_2fa", "attempts", "register_time"],
    "roles" := ["id", "name"],
    "user_roles" := ["user_id", "role_id"],
    "password_resets" := ["id", "user_id", "token_hash", "expires_at", "used", "created_at"],
    "email_verifications" := ["id", "user_id", "token_hash", "expires_at", "used", "created_at"],
    "questions" := ["id", "text", "option_a", "option_b", "published_date", "status", "created_at"],
    "answers" := ["id", "question_id", "user_id", "side", "body", "likes_count", "created_at"],
    "answer_likes" := ["id", "answer_id", "user_id", "created_at"],
    "participations" := ["id", "user_id", "question_id", "created_at"],
    "user_stats" := ["user_id", "total_xp", "influence_total", "power_majority_hits",
                     "power_participations", "streak_days", "last_participation_date",
                     "weekly_grace_tokens", "updated_at"],
    "daily_user_influence" := ["id", "question_id", "user_id", "likes_sum", "rank_position", "created_at"]
  ]

  /** The allow-list the callers need: `answers` also admits the
      `anonymous_key` column that AnswerRow declares, and `badges` is a
      table with the columns of BadgeRow. */
  const CorrectedColumns: Schema := ValidColumns[
    "answers" := ValidColumns["answers"] + ["anonymous_key"]][
    "badges" := ["id", "code", "name", "description", "rarity"]]

  predicate IsWordChar(c: char) {
    'a' <= c <= 'z' || 'A' <= c <= 'Z' || '0' <= c <= '9' || c == '_'
  }

  /** Matches `/^[a-zA-Z0-9_]+$/`. */
  predicate IsIdentifier(s: string) {
    s != [] && forall i :: 0 <= i < |s| ==> IsWordChar(s[i])
  }

  function Quote(id: string): string {
    "`" + id + "`"
  }

  /** escapeId: a well-formed identifier in backticks, anything else refused. */
  function EscapeId(id: string): (r: Result<string, SqlError>)
    ensures r.Ok? <==> IsIdentifier(id)
    ensures r.Ok? ==> |r.value| == |id| + 2 && r.value[1..|r.value| - 1] == id
    ensures r.Ok? ==> r.value[0] == '`' && r.value[|r.value| - 1] == '`'
    ensures r.Err? ==> r.error == InvalidIdentifier
  {
    if IsIdentifier(id) then Ok(Quote(id)) else Err(InvalidIdentifier)
  }

  /** `Object.entries(data).filter(([_, v]) => v !== undefined)`. */
  function Defined(data: Fields): (r: Fields)
    ensures |r| <= |data|
    ensures forall j :: 0 <= j < |r| ==> r[j].1 != Undefined
  {
    if data == [] then []
    else if data[0].1 == Undefined then Defined(data[1..])
    else [data[0]] + Defined(data[1..])
  }

  /** An object without undefined values keeps all its entries. */
  lemma {:induction false} DefinedAll(data: Fields)
    requires forall j :: 0 <= j < |data| ==> data[j].1 != Undefined
    ensures Defined(data) == data
  {
    if data != [] {
      DefinedAll(data[1..]);
    }
  }

  function Keys(fs: Fields): (r: seq<string>)
    ensures |r| == |fs|
  {
    seq(|fs|, i requires 0 <= i < |fs| => fs[i].0)
  }

  function Vals(fs: Fields): (r: seq<Value>)
    ensures |r| == |fs|
  {
    seq(|fs|, i requires 0 <= i < |fs| => fs[i].1)
  }

  function QuoteAll(ks: seq<string>): (r: seq<string>)
    ensures |r| == |ks|
  {
    seq(|ks|, i requires 0 <= i < |ks| => Quote(ks[i]))
  }

  function Repeat(s: string, n: nat): (r: seq<string>)
    ensures |r| == n
  {
    seq(n, _ => s)
  }

  /** A key the loop of `updateRow` / `insertRow` lets through: allowed for
      the table, and an identifier `escapeId` accepts. */
  predicate Fine(k: string, allowed: seq<string>) {
    k in allowed && IsIdentifier(k)
  }

  /** The error of the first key the loop stops at, in entry order: the
      allow-list is checked before the key is quoted. */
  function FirstFault(table: string, keys: seq<string>, allowed: seq<string>): (r: Option<SqlError>)
    ensures r.None? <==> forall k :: k in keys ==> Fine(k, allowed)
    ensures r.Some? ==> r.value == InvalidIdentifier
                        || (r.value.InvalidColumn? && r.value.table == table
                            && r.value.column in keys && r.value.column !in allowed)
  {
    if keys == [] then None
    else if keys[0] !in allowed then
      assert !Fine(keys[0], allowed);
      Some(InvalidColumn(table, keys[0]))
    else if !IsIdentifier(keys[0]) then
      assert !Fine(keys[0], allowed);
      Some(InvalidIdentifier)
    else FirstFault(table, keys[1..], allowed)
  }

  lemma {:induction false} FaultAfterFinePrefix(table: string, keys: seq<string>, allowed: seq<string>, i: nat)
    requires i <= |keys|
    requires forall j :: 0 <= j < i ==> Fine(keys[j], allowed)
    ensures FirstFault(table, keys, allowed) == FirstFault(table, keys[i..], allowed)
  {
    if i > 0 {
      FaultAfterFinePrefix(table, keys[1..], allowed, i - 1);
      assert keys[1..][i - 1..] == keys[i..];
    }
  }

  /** The error the loop stops with at the first key that is not fine. */
  lemma FaultAt(table: string, keys: seq<string>, allowed: seq<string>, i: nat)
    requires i < |keys| && !Fine(keys[i], allowed)
    requires forall j :: 0 <= j < i ==> Fine(keys[j], allowed)
    ensures FirstFault(table, keys, allowed)
            == if keys[i] !in allowed then Some(InvalidColumn(table, keys[i])) else Some(InvalidIdentifier)
  {
    FaultAfterFinePrefix(table, keys, allowed, i);
    assert keys[i..][0] == keys[i];
  }

  function InsertSql(table: string, columns: seq<string>, marks: seq<string>): string {
    "INSERT INTO " + Quote(table) + " (" + Join(columns, ",") + ") VALUES (" + Join(marks, ",") + ")"
  }

  /** `col = ?` for each quoted column. */
  function Assignments(columns: seq<string>): (r: seq<string>)
    ensures |r| == |columns|
  {
    seq(|columns|, i requires 0 <= i < |columns| => columns[i] + " = ?")
  }

  function UpdateSql(table: string, parts: seq<string>, where: string): string {
    "UPDATE " + Quote(table) + " SET " + Join(parts, ", ") + " WHERE " + where
  }

  /** The number of `?` placeholders in a statement. */
  function Marks(s: string): nat
  {
    MarksFrom(s, 0)
  }

  /** The placeholders at positions i and after. */
  function MarksFrom(s: string, i: nat): nat
    decreases |s| - i
  {
    if i >= |s| then 0 else (if s[i] == '?' then 1 else 0) + MarksFrom(s, i + 1)
  }

  lemma {:induction false} MarksFromShift(a: string, b: string, j: nat)
    ensures MarksFrom(a + b, |a| + j) == MarksFrom(b, j)
    decreases |b| - j
  {
    if j < |b| {
      assert (a + b)[|a| + j] == b[j];
      MarksFromShift(a, b, j + 1);
    }
  }

  lemma {:induction false} MarksFromConcat(a: string, b: string, i: nat)
    requires i <= |a|
    ensures MarksFrom(a + b, i) == MarksFrom(a, i) + MarksFrom(b, 0)
    decreases |a| - i
  {
    if i == |a| {
      MarksFromShift(a, b, 0);
    } else {
      assert (a + b)[i] == a[i];
      MarksFromConcat(a, b, i + 1);
    }
  }

  lemma MarksConcat(a: string, b: string)
    ensures Marks(a + b) == Marks(a) + Marks(b)
  {
    MarksFromConcat(a, b, 0);
  }

  lemma {:induction false} NoMarksFrom(s: string, i: nat)
    requires forall k :: 0 <= k < |s| ==> s[k] != '?'
    ensures MarksFrom(s, i) == 0
    decreases |s| - i
  {
    if i < |s| {
      NoMarksFrom(s, i + 1);
    }
  }

  /** Text without a question mark holds no placeholder. */
  lemma NoMarks(s: string)
    requires forall k :: 0 <= k < |s| ==> s[k] != '?'
    ensures Marks(s) == 0
  {
    NoMarksFrom(s, 0);
  }

  /** Word characters are no question marks, so a quoted identifier holds no placeholder. */
  lemma WordsHaveNoMarks(s: string)
    requires forall i :: 0 <= i < |s| ==> IsWordChar(s[i])
    ensures Marks(s) == 0
  {
    NoMarks(s);
  }

  lemma QuoteHasNoMarks(id: string)
    requires IsIdentifier(id)
    ensures Marks(Quote(id)) == 0
  {
    WordsHaveNoMarks(id);
    MarksConcat("`", id);
    MarksConcat("`" + id, "`");
  }

  /** Joining parts that each hold k placeholders, with a separator that
      holds none, gives |parts| * k placeholders. */
  lemma {:induction false} JoinMarks(parts: seq<string>, sep: string, k: nat)
    requires Marks(sep) == 0
    requires forall i :: 0 <= i < |parts| ==> Marks(parts[i]) == k
    ensures Marks(Join(parts, sep)) == |parts| * k
  {
    if |parts| > 1 {
      JoinMarks(parts[1..], sep, k);
      MarksConcat(parts[0], sep);
      MarksConcat(parts[0] + sep, Join(parts[1..], sep));
      MulSucc(|parts| - 1, k);
    }
  }

  lemma QuotedColumnsHaveNoMarks(keys: seq<string>)
    requires forall k :: k in keys ==> IsIdentifier(k)
    ensures Marks(Join(QuoteAll(keys), ",")) == 0
  {
    forall i | 0 <= i < |keys|
      ensures Marks(QuoteAll(keys)[i]) == 0
    {
      assert keys[i] in keys;
      QuoteHasNoMarks(keys[i]);
    }
    JoinMarks(QuoteAll(keys), ",", 0);
  }

  lemma MarkListMarks(n: nat, sep: string)
    requires Marks(sep) == 0
    ensures Marks(Join(Repeat("?", n), sep)) == n
  {
    assert Marks("?") == 1;
    JoinMarks(Repeat("?", n), sep, 1);
  }

  /** The INSERT statement holds exactly one placeholder per mark. */
  lemma InsertSqlMarks(table: string, keys: seq<string>, n: nat)
    requires IsIdentifier(table)
    requires forall k :: k in keys ==> IsIdentifier(k)
    ensures Marks(InsertSql(table, QuoteAll(keys), Repeat("?", n))) == n
  {
    var cols, marks := Join(QuoteAll(keys), ","), Join(Repeat("?", n), ",");
    assert Marks(",") == 0;
    QuotedColumnsHaveNoMarks(keys);
    MarkListMarks(n, ",");
    QuoteHasNoMarks(table);
    InsertLiteralMarks();
    MarksConcat("INSERT INTO ", Quote(table));
    MarksConcat("INSERT INTO " + Quote(table), " (");
    MarksConcat("INSERT INTO " + Quote(table) + " (", cols);
    MarksConcat("INSERT INTO " + Quote(table) + " (" + cols, ") VALUES (");
    MarksConcat("INSERT INTO " + Quote(table) + " (" + cols + ") VALUES (", marks);
    MarksConcat("INSERT INTO " + Quote(table) + " (" + cols + ") VALUES (" + marks, ")");
  }

  /** The fixed text of the statements holds no placeholder. */
  lemma InsertLiteralMarks()
    ensures Marks("INSERT INTO ") == 0 && Marks(" (") == 0 && Marks(") VALUES (") == 0
  {
    NoMarks("INSERT INTO ");
    NoMarks(" (");
    NoMarks(") VALUES (");
  }

  lemma GroupLiteralMarks()
    ensures Marks(") VALUES ") == 0 && Marks("(") == 0 && Marks(")") == 0
  {
    NoMarks(") VALUES ");
    NoMarks("(");
    NoMarks(")");
  }

  lemma UpdateLiteralMarks()
    ensures Marks("UPDATE ") == 0 && Marks(" SET ") == 0 && Marks(" WHERE ") == 0
  {
    NoMarks("UPDATE ");
    NoMarks(" SET ");
    NoMarks(" WHERE ");
  }

  lemma AssignmentLiteralMarks()
    ensures Marks(", ") == 0 && Marks(" = ?") == 1
  {
    NoMarks(", ");
    NoMarks(" = ");
    assert " = ?" == " = " + "?";
    MarksConcat(" = ", "?");
  }

  /** The UPDATE statement holds one placeholder per assigned column, then
      those of the WHERE clause. */
  lemma UpdateSqlMarks(table: string, keys: seq<string>, where: string)
    requires IsIdentifier(table)
    requires forall k :: k in keys ==> IsIdentifier(k)
    ensures Marks(UpdateSql(table, Assignments(QuoteAll(keys)), where)) == |keys| + Marks(where)
  {
    var parts := Assignments(QuoteAll(keys));
    UpdateLiteralMarks();
    AssignmentLiteralMarks();
    forall i | 0 <= i < |keys|
      ensures Marks(parts[i]) == 1
    {
      assert keys[i] in keys;
      QuoteHasNoMarks(keys[i]);
      MarksConcat(QuoteAll(keys)[i], " = ?");
    }
    JoinMarks(parts, ", ", 1);
    QuoteHasNoMarks(table);
    var j := Join(parts, ", ");
    MarksConcat("UPDATE ", Quote(table));
    MarksConcat("UPDATE " + Quote(table), " SET ");
    MarksConcat("UPDATE " + Quote(table) + " SET ", j);
    MarksConcat("UPDATE " + Quote(table) + " SET " + j, " WHERE ");
    MarksConcat("UPDATE " + Quote(table) + " SET " + j + " WHERE ", where);
  }

  /** What `insertRow(table, data)` sends, or the error it throws. */
  function InsertSpec(schema: Schema, table: string, data: Fields): (r: Result<Query, SqlError>)
    ensures r.Ok? <==> table in schema && Defined(data) != []
                       && (forall k :: k in Keys(Defined(data)) ==> Fine(k, schema[table]))
                       && IsIdentifier(table)
    ensures r == Err(InvalidTable) <==> table !in schema
    ensures r == Err(NoFieldsToInsert) <==> table in schema && Defined(data) == []
    ensures table in schema && Defined(data) != [] && FirstFault(table, Keys(Defined(data)), schema[table]).Some?
            ==> r == Err(FirstFault(table, Keys(Defined(data)), schema[table]).value)
    ensures r.Ok? ==> r.value.params == Vals(Defined(data))
                      && forall v :: v in r.value.params ==> v != Undefined
    ensures r.Ok? ==> r.value.sql == InsertSql(table, QuoteAll(Keys(Defined(data))), Repeat("?", |Defined(data)|))
    ensures r.Ok? ==> Marks(r.value.sql) == |r.value.params|
  {
    if table !in schema then Err(InvalidTable) else InsertEntries(table, schema[table], Defined(data))
  }

  /** The part of `insertRow` after the payload has been reduced to its
      defined entries. */
  function InsertEntries(table: string, allowed: seq<string>, entries: Fields): (r: Result<Query, SqlError>)
    ensures r.Ok? <==> entries != [] && (forall k :: k in Keys(entries) ==> Fine(k, allowed)) && IsIdentifier(table)
    ensures r != Err(InvalidTable)
    ensures r == Err(NoFieldsToInsert) <==> entries == []
    ensures entries != [] && FirstFault(table, Keys(entries), allowed).Some?
            ==> r == Err(FirstFault(table, Keys(entries), allowed).value)
    ensures r.Ok? ==> r.value.params == Vals(entries)
    ensures r.Ok? ==> r.value.sql == InsertSql(table, QuoteAll(Keys(entries)), Repeat("?", |entries|))
    ensures r.Ok? ==> Marks(r.value.sql) == |r.value.params|
  {
    if entries == [] then Err(NoFieldsToInsert)
    else match FirstFault(table, Keys(entries), allowed)
      case Some(e) => Err(e)
      case None =>
        if !IsIdentifier(table) then Err(InvalidIdentifier)
        else
          InsertSqlMarks(table, Keys(entries), |entries|);
          Ok(Query(InsertSql(table, QuoteAll(Keys(entries)), Repeat("?", |entries|)), Vals(entries)))
  }

  /** The single object `updateRow` works on, or None when an array payload
      is not exactly one non-null, non-array object. */
  function PayloadObject(data: Payload): (r: Option<Fields>)
    ensures data.Single? ==> r == Some(data.fields)
    ensures data.Many? ==> (r.Some? <==> |data.items| == 1 && data.items[0].Object?)
  {
    match data
    case Single(fs) => Some(fs)
    case Many(items) => if |items| == 1 && items[0].Object? then Some(items[0].fields) else None
  }

  /** What `updateRow(table, data, where, params)` sends, or the error it throws. */
  function UpdateSpec(schema: Schema, table: string, data: Payload, where: string, params: seq<Value>)
    : (r: Result<Query, SqlError>)
    ensures r == Err(InvalidTable) <==> table !in schema
    ensures r.Ok? <==> table in schema && PayloadObject(data).Some?
                       && Defined(PayloadObject(data).value) != []
                       && (forall k :: k in Keys(Defined(PayloadObject(data).value)) ==> Fine(k, schema[table]))
                       && IsIdentifier(table)
    ensures r == Err(BadPayload) <==> table in schema && PayloadObject(data).None?
    ensures r == Err(NoFieldsToUpdate)
            <==> table in schema && PayloadObject(data).Some? && Defined(PayloadObject(data).value) == []
    ensures r.Ok? ==> r.value.params == Vals(Defined(PayloadObject(data).value)) + params
    ensures r.Ok? ==> r.value.sql == UpdateSql(table, Assignments(QuoteAll(Keys(Defined(PayloadObject(data).value)))), where)
    ensures r.Ok? ==> Marks(r.value.sql) - Marks(where) == |r.value.params| - |params|
  {
    if table !in schema then Err(InvalidTable)
    else match PayloadObject(data)
      case None => Err(BadPayload)
      case Some(obj) => UpdateEntries(table, schema[table], Defined(obj), where, params)
  }

  /** The part of `updateRow` after the payload has been reduced to its
      defined entries. */
  function UpdateEntries(table: string, allowed: seq<string>, entries: Fields, where: string, params: seq<Value>)
    : (r: Result<Query, SqlError>)
    ensures r.Ok? <==> entries != [] && (forall k :: k in Keys(entries) ==> Fine(k, allowed)) && IsIdentifier(table)
    ensures r != Err(InvalidTable) && r != Err(BadPayload)
    ensures r == Err(NoFieldsToUpdate) <==> entries == []
    ensures entries != [] && FirstFault(table, Keys(entries), allowed).Some?
            ==> r == Err(FirstFault(table, Keys(entries), allowed).value)
    ensures r.Ok? ==> r.value.params == Vals(entries) + params
    ensures r.Ok? ==> r.value.sql == UpdateSql(table, Assignments(QuoteAll(Keys(entries))), where)
    ensures r.Ok? ==> Marks(r.value.sql) - Marks(where) == |r.value.params| - |params| == |entries|
  {
    if entries == [] then Err(NoFieldsToUpdate)
    else match FirstFault(table, Keys(entries), allowed)
      case Some(e) => Err(e)
      case None =>
        if !IsIdentifier(table) then Err(InvalidIdentifier)
        else
          UpdateSqlMarks(table, Keys(entries), where);
          Ok(Query(UpdateSql(table, Assignments(QuoteAll(Keys(entries))), where), Vals(entries) + params))
  }

  /** insertRow: one loop over the defined entries, checking each key and
      pushing its quoted name, a placeholder and its value. */
  method InsertRow(schema: Schema, table: string, data: Fields) returns (r: Result<Query, SqlError>)
    ensures r == InsertSpec(schema, table, data)
    ensures r.Ok? ==> Marks(r.value.sql) == |r.value.params|
  {
    if table !in schema {
      return Err(InvalidTable);
    }
    r := InsertFields(table, schema[table], Defined(data));
  }

  /** The loop of `insertRow` over the defined entries: each key is checked
      against the allow-list and quoted, and gets a placeholder and its
      value. */
  method InsertFields(table: string, allowed: seq<string>, entries: Fields) returns (r: Result<Query, SqlError>)
    ensures r == InsertEntries(table, allowed, entries)
    ensures r.Ok? ==> Marks(r.value.sql) == |r.value.params|
  {
    if entries == [] {
      return Err(NoFieldsToInsert);
    }
    var keys := Keys(entries);
    var fields: seq<string> := [];
    var placeholders: seq<string> := [];
    var values: seq<Value> := [];
    var i := 0;
    while i < |entries|
      invariant 0 <= i <= |entries|
      invariant forall j :: 0 <= j < i ==> Fine(keys[j], allowed)
      invariant |fields| == i && forall j :: 0 <= j < i ==> fields[j] == Quote(keys[j])
      invariant |placeholders| == i && forall j :: 0 <= j < i ==> placeholders[j] == "?"
      invariant |values| == i && forall j :: 0 <= j < i ==> values[j] == entries[j].1
    {
      var key := entries[i].0;
      assert keys[i] == key;
      if key !in allowed {
        FaultAt(table, keys, allowed, i);
        return Err(InvalidColumn(table, key));
      }
      var esc := EscapeId(key);
      if esc.Err? {
        FaultAt(table, keys, allowed, i);
        return Err(InvalidIdentifier);
      }
      assert keys[i] == key && Fine(key, allowed);
      fields := fields + [esc.value];
      placeholders := placeholders + ["?"];
      values := values + [entries[i].1];
      i := i + 1;
    }
    assert fields == QuoteAll(keys) && placeholders == Repeat("?", |entries|);
    assert values == Vals(entries);
    if !IsIdentifier(table) {
      return Err(InvalidIdentifier);
    }
    r := Ok(Query(InsertSql(table, fields, placeholders), values));
  }

  /** updateRow: the payload check, then one loop pushing `key = ?` and the
      value of each defined entry; the where parameters come last. */
  method UpdateRow(schema: Schema, table: string, data: Payload, where: string, params: seq<Value>)
    returns (r: Result<Query, SqlError>)
    ensures r == UpdateSpec(schema, table, data, where, params)
    ensures r.Ok? ==> Marks(r.value.sql) - Marks(where) == |r.value.params| - |params|
  {
    if table !in schema {
      return Err(InvalidTable);
    }
    var obj: Fields;
    match data {
      case Single(fs) => obj := fs;
      case Many(items) =>
        if |items| != 1 || !items[0].Object? {
          return Err(BadPayload);
        }
        obj := items[0].fields;
    }
    r := UpdateFields(table, schema[table], Defined(obj), where, params);
  }

  /** The loop of `updateRow` over the defined entries of the payload:
      each key is checked against the allow-list and quoted, and its value
      pushed; the where parameters come last. */
  method UpdateFields(table: string, allowed: seq<string>, entries: Fields, where: string, params: seq<Value>)
    returns (r: Result<Query, SqlError>)
    ensures r == UpdateEntries(table, allowed, entries, where, params)
    ensures r.Ok? ==> Marks(r.value.sql) - Marks(where) == |r.value.params| - |params|
  {
    if entries == [] {
      return Err(NoFieldsToUpdate);
    }
    var keys := Keys(entries);
    var fieldsParts: seq<string> := [];
    var values: seq<Value> := [];
    var i := 0;
    while i < |entries|
      invariant 0 <= i <= |entries|
      invariant forall j :: 0 <= j < i ==> Fine(keys[j], allowed)
      invariant |fieldsParts| == i
      invariant forall j :: 0 <= j < i ==> fieldsParts[j] == Quote(keys[j]) + " = ?"
      invariant |values| == i && forall j :: 0 <= j < i ==> values[j] == entries[j].1
    {
      var key := entries[i].0;
      assert keys[i] == key;
      if key !in allowed {
        FaultAt(table, keys, allowed, i);
        return Err(InvalidColumn(table, key));
      }
      var esc := EscapeId(key);
      if esc.Err? {
        FaultAt(table, keys, allowed, i);
        return Err(InvalidIdentifier);
      }
      assert keys[i] == key && Fine(key, allowed);
      fieldsParts := fieldsParts + [esc.value + " = ?"];
      values := values + [entries[i].1];
      i := i + 1;
    }
    assert values == Vals(entries);
    if !IsIdentifier(table) {
      return Err(InvalidIdentifier);
    }
    assert fieldsParts == Assignments(QuoteAll(keys));
    r := Ok(Query(UpdateSql(table, fieldsParts, where), values + params));
  }

  /** `(row as any)[k]`: the value under key `k`, undefined when absent. */
  function Lookup(row: Fields, k: string): Value
  {
    if row == [] then Undefined else if row[0].0 == k then row[0].1 else Lookup(row[1..], k)
  }

  function Project(row: Fields, keys: seq<string>): (r: seq<Value>)
    ensures |r| == |keys|
  {
    seq(|keys|, j requires 0 <= j < |keys| => Lookup(row, keys[j]))
  }

  /** `data.flatMap((row) => keys.map((k) => row[k]))`. */
  function RowMajor(rows: seq<Fields>, keys: seq<string>): seq<Value>
  {
    if rows == [] then [] else Project(rows[0], keys) + RowMajor(rows[1..], keys)
  }

  /** `keys.map(escapeId)`: the first key `escapeId` refuses throws. */
  function EscapeAll(keys: seq<string>): (r: Result<seq<string>, SqlError>)
    ensures r.Ok? <==> forall k :: k in keys ==> IsIdentifier(k)
    ensures r.Ok? ==> r.value == QuoteAll(keys)
    ensures r.Err? ==> r.error == InvalidIdentifier
  {
    if keys == [] then Ok([])
    else if !IsIdentifier(keys[0]) then Err(InvalidIdentifier)
    else match EscapeAll(keys[1..])
      case Err(e) => Err(e)
      case Ok(rest) =>
        assert QuoteAll(keys) == [Quote(keys[0])] + QuoteAll(keys[1..]);
        Ok([Quote(keys[0])] + rest)
  }

  /** The first key, in order, that the allow-list refuses. */
  function FirstNotAllowed(keys: seq<string>, allowed: seq<string>): (r: Option<string>)
    ensures r.None? <==> forall k :: k in keys ==> k in allowed
    ensures r.Some? ==> r.value in keys && r.value !in allowed
  {
    if keys == [] then None
    else if keys[0] !in allowed then Some(keys[0])
    else FirstNotAllowed(keys[1..], allowed)
  }

  /** One row's placeholder group: `(?,?,…)` with n marks. */
  function Group(n: nat): string {
    "(" + Join(Repeat("?", n), ",") + ")"
  }

  /** The multi-row INSERT: quoted columns, then `rows` placeholder groups. */
  function InsertAllSql(table: string, keys: seq<string>, rows: nat): string {
    "INSERT INTO " + Quote(table) + " (" + Join(QuoteAll(keys), ",") + ") VALUES "
    + Join(Repeat(Group(|keys|), rows), ",")
  }

  lemma GroupMarks(n: nat)
    ensures Marks(Group(n)) == n
  {
    GroupLiteralMarks();
    assert Marks(",") == 0;
    MarkListMarks(n, ",");
    MarksConcat("(", Join(Repeat("?", n), ","));
    MarksConcat("(" + Join(Repeat("?", n), ","), ")");
  }

  /** A multi-row INSERT holds one placeholder per row and column. */
  lemma InsertAllSqlMarks(table: string, keys: seq<string>, rows: nat)
    requires IsIdentifier(table)
    requires forall k :: k in keys ==> IsIdentifier(k)
    ensures Marks(InsertAllSql(table, keys, rows)) == rows * |keys|
  {
    var cols, groups := Join(QuoteAll(keys), ","), Join(Repeat(Group(|keys|), rows), ",");
    assert Marks(",") == 0;
    GroupMarks(|keys|);
    JoinMarks(Repeat(Group(|keys|), rows), ",", |keys|);
    QuotedColumnsHaveNoMarks(keys);
    QuoteHasNoMarks(table);
    InsertLiteralMarks();
    GroupLiteralMarks();
    MarksConcat("INSERT INTO ", Quote(table));
    MarksConcat("INSERT INTO " + Quote(table), " (");
    MarksConcat("INSERT INTO " + Quote(table) + " (", cols);
    MarksConcat("INSERT INTO " + Quote(table) + " (" + cols, ") VALUES ");
    MarksConcat("INSERT INTO " + Quote(table) + " (" + cols + ") VALUES ", groups);
  }

  /** insertAllRows: the columns are the first row's defined keys; every row
      contributes one placeholder group and its values under those keys. */
  function InsertAllRows(schema: Schema, table: string, rows: seq<Fields>): (r: Result<Query, SqlError>)
    ensures r == Err(InvalidTable) <==> table !in schema
    ensures table in schema && rows == [] ==> r == Err(NoRows)
    ensures r.Ok? <==> table in schema && rows != [] && Keys(Defined(rows[0])) != []
                       && (forall k :: k in Keys(Defined(rows[0])) ==> Fine(k, schema[table]))
                       && IsIdentifier(table)
    ensures r == Err(NoFieldsToInsert) <==> table in schema && rows != [] && Defined(rows[0]) == []
    ensures table in schema && rows != [] && FirstNotAllowed(Keys(Defined(rows[0])), schema[table]).Some?
            ==> r == Err(InvalidColumn(table, FirstNotAllowed(Keys(Defined(rows[0])), schema[table]).value))
    ensures r.Ok? ==> r.value.params == RowMajor(rows, Keys(Defined(rows[0])))
    ensures r.Ok? ==> r.value.sql == InsertAllSql(table, Keys(Defined(rows[0])), |rows|)
    ensures r.Ok? ==> Marks(r.value.sql) == |rows| * |Keys(Defined(rows[0]))| == |r.value.params|
  {
    if table !in schema then Err(InvalidTable)
    else if rows == [] then Err(NoRows)
    else
      var keys := Keys(Defined(rows[0]));
      if keys == [] then Err(NoFieldsToInsert)
      else match FirstNotAllowed(keys, schema[table])
        case Some(k) => Err(InvalidColumn(table, k))
        case None =>
          match EscapeAll(keys)
          case Err(e) => Err(e)
          case Ok(cols) =>
            if !IsIdentifier(table) then Err(InvalidIdentifier)
            else
              var group := "(" + Join(Repeat("?", |keys|), ",") + ")";
              InsertAllSqlMarks(table, keys, |rows|);
              RowMajorLength(rows, keys);
              Ok(Query("INSERT INTO " + Quote(table) + " (" + Join(cols, ",") + ") VALUES "
                       + Join(Repeat(group, |rows|), ","), RowMajor(rows, keys)))
  }

  /** The parameters of a multi-row insert are the rows' values in
      row-major order: `rows × keys` values, row `i`'s value for key `j`
      at position `i * |keys| + j`. */
  lemma {:induction false} RowMajorLayout(rows: seq<Fields>, keys: seq<string>, i: nat, j: nat)
    requires i < |rows| && j < |keys|
    ensures |RowMajor(rows, keys)| == |rows| * |keys|
    ensures i * |keys| + j < |RowMajor(rows, keys)|
    ensures RowMajor(rows, keys)[i * |keys| + j] == Lookup(rows[i], keys[j])
  {
    var n := |keys|;
    if i == 0 {
      RowMajorLength(rows, keys);
    } else {
      RowMajorLayout(rows[1..], keys, i - 1, j);
      MulSucc(i - 1, n);
      MulSucc(|rows| - 1, n);
    }
  }

  lemma {:induction false} RowMajorLength(rows: seq<Fields>, keys: seq<string>)
    ensures |RowMajor(rows, keys)| == |rows| * |keys|
  {
    if rows != [] {
      RowMajorLength(rows[1..], keys);
      MulSucc(|rows| - 1, |keys|);
    }
  }

  lemma MulSucc(x: nat, n: nat)
    ensures (x + 1) * n == x * n + n
  {
  }
}
