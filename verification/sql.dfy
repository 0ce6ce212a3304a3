/** The statements the `Database` helpers build, how `execute_query` tells a
    read from a write, and how it turns fetched rows into dicts. */
module Sql {
  import opened Text
  import opened Values

  /** `query.strip().upper().startswith('SELECT')`. */
  predicate IsRead(query: string) {
    StartsWith(Upper(Strip(query, Whitespace)), "SELECT")
  }

  /** The six characters of `s` from position `k` on spell SELECT in any mix of cases. */
  predicate SelectAt(s: string, k: nat) {
    && k + 6 <= |s|
    && UpperChar(s[k]) == 'S' && UpperChar(s[k + 1]) == 'E' && UpperChar(s[k + 2]) == 'L'
    && UpperChar(s[k + 3]) == 'E' && UpperChar(s[k + 4]) == 'C' && UpperChar(s[k + 5]) == 'T'
  }

  lemma UpperStartsWithSelect(r: string)
    ensures StartsWith(Upper(r), "SELECT") <==> SelectAt(r, 0)
  {
    var u := Upper(r);
    if |r| >= 6 {
      assert u[..6] == [u[0], u[1], u[2], u[3], u[4], u[5]];
    }
  }

  lemma UpperIsT(c: char)
    requires UpperChar(c) == 'T'
    ensures c !in Whitespace
  {
    assert c == 'T' || c == 't';
  }

  /** Cutting whitespace off the end of `query` does not change whether
      SELECT is spelled from position `k` on. */
  lemma SelectAtSlice(query: string, k: nat, j: nat)
    requires k < j <= |query|
    requires forall n | j <= n < |query| :: query[n] in Whitespace
    ensures SelectAt(query[k..j], 0) <==> SelectAt(query, k)
  {
    if k + 6 <= j {
      var r := query[k..j];
      assert r[0] == query[k] && r[1] == query[k + 1] && r[2] == query[k + 2];
      assert r[3] == query[k + 3] && r[4] == query[k + 4] && r[5] == query[k + 5];
    } else if k + 6 <= |query| && UpperChar(query[k + 5]) == 'T' {
      UpperIsT(query[k + 5]);
    }
  }

  /** A query is a read exactly when the first six characters after its
      leading whitespace spell SELECT in any mix of cases. */
  lemma IsReadIff(query: string)
    ensures IsRead(query) <==> SelectAt(query, LeadLen(query, Whitespace))
  {
    var r := Strip(query, Whitespace);
    StripSpec(query, Whitespace);
    var i, j :| 0 <= i <= j <= |query| && r == query[i..j] && AllIn(query[..i], Whitespace)
      && AllIn(query[j..], Whitespace) && Bare(r, Whitespace);
    BareEdges(r, query, Whitespace, i, j);
    UpperStartsWithSelect(r);
    if r != [] {
      SelectAtSlice(query, i, j);
    }
  }

  /** Each column name paired with the row's value at its position. */
  function RowPairs(columns: seq<string>, row: seq<Value>): (pairs: seq<(string, Value)>)
    requires |columns| <= |row|
    ensures |pairs| == |columns|
  {
    seq(|columns|, i requires 0 <= i < |columns| => (columns[i], row[i]))
  }

  /** `row_dict` once the inner loop is done: `columns[i]` mapped to `row[i]`,
      a later column of the same name overwriting an earlier one. */
  function RowDict(columns: seq<string>, row: seq<Value>): Record
    requires |columns| <= |row|
  {
    Assign(RowPairs(columns, row))
  }

  /** A row dict has one key per column name. */
  lemma RowDictKeys(columns: seq<string>, row: seq<Value>)
    requires |columns| <= |row|
    ensures RowDict(columns, row).Keys == set c | c in columns
  {
    var pairs := RowPairs(columns, row);
    AssignKeys(pairs);
    forall c | c in columns ensures c in RowDict(columns, row) {
      var i :| 0 <= i < |columns| && columns[i] == c;
      assert pairs[i].0 == c;
    }
  }

  /** Column `columns[i]` holds `row[i]` unless a later column has the same name. */
  lemma RowDictAt(columns: seq<string>, row: seq<Value>, i: int)
    requires |columns| <= |row|
    requires 0 <= i < |columns|
    requires forall j | i < j < |columns| :: columns[j] != columns[i]
    ensures columns[i] in RowDict(columns, row)
    ensures RowDict(columns, row)[columns[i]] == row[i]
  {
    AssignAt(RowPairs(columns, row), i);
  }

  /** What the read branch of `execute_query` yields: one dict per fetched
      row, or nothing when a row is shorter than the column list (indexing it
      raises, and the exception is caught). */
  function Shaped(columns: seq<string>, rows: seq<seq<Value>>): Option<seq<Record>> {
    if forall k | 0 <= k < |rows| :: |columns| <= |rows[k]|
    then Some(seq(|rows|, k requires 0 <= k < |rows| => RowDict(columns, rows[k])))
    else None
  }

  /** The nested loops of the read branch of `execute_query`. */
  method ShapeRows(columns: seq<string>, rows: seq<seq<Value>>) returns (result: Option<seq<Record>>)
    ensures result.Some? <==> forall k | 0 <= k < |rows| :: |columns| <= |rows[k]|
    ensures result.Some? ==> |result.value| == |rows|
    ensures result.Some? ==> forall k | 0 <= k < |rows| :: result.value[k] == RowDict(columns, rows[k])
    ensures result == Shaped(columns, rows)
  {
    var dicts: seq<Record> := [];
    for n := 0 to |rows|
      invariant |dicts| == n
      invariant forall k | 0 <= k < n :: |columns| <= |rows[k]| && dicts[k] == RowDict(columns, rows[k])
    {
      var row := rows[n];
      var rowDict: Record := map[];
      for i := 0 to |columns|
        invariant i <= |row|
        invariant rowDict == Assign(RowPairs(columns[..i], row))
      {
        if i >= |row| {
          // row[i] raises IndexError; execute_query catches it.
          return None;
        }
        rowDict := rowDict[columns[i] := row[i]];
        assert RowPairs(columns[..i + 1], row) == RowPairs(columns[..i], row) + [(columns[i], row[i])];
        AssignNext(RowPairs(columns[..i + 1], row), i);
      }
      assert columns[..|columns|] == columns;
      dicts := dicts + [rowDict];
    }
    assert dicts == seq(|rows|, k requires 0 <= k < |rows| => RowDict(columns, rows[k]));
    return Some(dicts);
  }

  /** `f"SELECT * FROM {table_name} WHERE {condition}"`, or without the WHERE
      part when the condition is `None` or empty. */
  function SelectQuery(table: string, condition: Option<string>): string {
    if condition.Some? && condition.value != [] then "SELECT * FROM " + table + " WHERE " + condition.value
    else "SELECT * FROM " + table
  }

  /** The WHERE part is added exactly when the condition is truthy, and it
      then follows the bare statement unchanged. */
  lemma SelectQueryWhere(table: string, condition: Option<string>)
    ensures StartsWith(SelectQuery(table, condition), "SELECT * FROM " + table)
    ensures SelectQuery(table, condition) != "SELECT * FROM " + table <==> condition.Some? && condition.value != []
    ensures condition.Some? && condition.value != [] ==>
      SelectQuery(table, condition)[|"SELECT * FROM " + table|..] == " WHERE " + condition.value
  {
    var bare := "SELECT * FROM " + table;
    if condition.Some? && condition.value != [] {
      var q := bare + (" WHERE " + condition.value);
      assert SelectQuery(table, condition) == q;
      assert q[..|bare|] == bare && q[|bare|..] == " WHERE " + condition.value;
      assert |q| > |bare|;
    } else {
      assert SelectQuery(table, condition)[..|bare|] == bare;
    }
  }

  /** `f"DELETE FROM {table_name} WHERE {condition}"`. */
  function DeleteQuery(table: string, condition: string): string {
    "DELETE FROM " + table + " WHERE " + condition
  }

  /** `col = ?` for each column, in the dict's order. */
  function SetParts(setValues: seq<(string, Value)>): (parts: seq<string>)
    ensures |parts| == |setValues|
  {
    seq(|setValues|, k requires 0 <= k < |setValues| => setValues[k].0 + " = ?")
  }

  /** The values of `set_values`, in the dict's order. */
  function SetParams(setValues: seq<(string, Value)>): (params: seq<Value>)
    ensures |params| == |setValues|
  {
    seq(|setValues|, k requires 0 <= k < |setValues| => setValues[k].1)
  }

  /** `f"UPDATE {table_name} SET {set_clause} WHERE {condition}"`. */
  function UpdateQuery(table: string, setParts: seq<string>, condition: string): string {
    "UPDATE " + table + " SET " + Join(", ", setParts) + " WHERE " + condition
  }

  /** A query that begins with a letter other than S or s is a write. */
  lemma NotReadByFirstLetter(q: string)
    requires q != [] && q[0] !in Whitespace && UpperChar(q[0]) != 'S'
    ensures !IsRead(q)
  {
    IsReadIff(q);
  }

  /** Whatever the table and condition, the SELECT helper's statement takes
      the read branch, so it yields rows and not a count. */
  lemma SelectQueryIsRead(table: string, condition: Option<string>)
    ensures IsRead(SelectQuery(table, condition))
  {
    if condition.Some? && condition.value != [] {
      assert SelectQuery(table, condition) == "SELECT * FROM " + (table + " WHERE " + condition.value);
      SelectPrefixIsRead(table + " WHERE " + condition.value);
    } else {
      SelectPrefixIsRead(table);
    }
  }

  lemma SelectPrefixIsRead(rest: string)
    ensures IsRead("SELECT * FROM " + rest)
  {
    var q := "SELECT * FROM " + rest;
    assert q[0] == 'S' && q[1] == 'E' && q[2] == 'L' && q[3] == 'E' && q[4] == 'C' && q[5] == 'T';
    assert LeadLen(q, Whitespace) == 0;
    IsReadIff(q);
  }

  /** The DELETE and UPDATE statements take the write branch. */
  lemma DeleteAndUpdateAreWrites(table: string, setParts: seq<string>, condition: string)
    ensures !IsRead(DeleteQuery(table, condition))
    ensures !IsRead(UpdateQuery(table, setParts, condition))
  {
    NotReadByFirstLetter(DeleteQuery(table, condition));
    NotReadByFirstLetter(UpdateQuery(table, setParts, condition));
  }

  /** The SET clause holds one `?` per column when no column name holds one. */
  lemma {:induction false} SetClauseMarkers(setValues: seq<(string, Value)>)
    requires forall k | 0 <= k < |setValues| :: '?' !in setValues[k].0
    ensures CountChar(Join(", ", SetParts(setValues)), '?') == |setValues|
  {
    var parts := SetParts(setValues);
    forall k | 0 <= k < |parts| ensures CountChar(parts[k], '?') == 1 {
      CountAbsent(setValues[k].0, '?');
      CountAppend(setValues[k].0, " = ?", '?');
    }
    JoinOnePerPart(", ", parts, '?');
  }

  /** The UPDATE statement holds one `?` per column when neither the table
      name, the condition nor a column name holds one. */
  lemma {:induction false} UpdateMarkers(table: string, setValues: seq<(string, Value)>, condition: string)
    requires '?' !in table && '?' !in condition
    requires forall k | 0 <= k < |setValues| :: '?' !in setValues[k].0
    ensures CountChar(UpdateQuery(table, SetParts(setValues), condition), '?') == |setValues|
  {
    SetClauseMarkers(setValues);
    CountAbsent("UPDATE ", '?');
    CountAbsent(" SET ", '?');
    CountAbsent(" WHERE ", '?');
    CountAbsent(table, '?');
    CountAbsent(condition, '?');
    CountSix("UPDATE ", table, " SET ", Join(", ", SetParts(setValues)), " WHERE ", condition, '?');
  }

  lemma CountSix(a: string, b: string, c: string, d: string, e: string, f: string, ch: char)
    ensures CountChar(a + b + c + d + e + f, ch)
      == CountChar(a, ch) + CountChar(b, ch) + CountChar(c, ch) + CountChar(d, ch) + CountChar(e, ch) + CountChar(f, ch)
  {
    CountAppend(a + b + c + d + e, f, ch);
    CountAppend(a + b + c + d, e, ch);
    CountAppend(a + b + c, d, ch);
    CountAppend(a + b, c, ch);
    CountAppend(a, b, ch);
  }

  /** The loop of `update_record`, followed by the join and the template. */
  method BuildUpdate(table: string, setValues: seq<(string, Value)>, condition: string)
    returns (query: string, params: seq<Value>)
    ensures |params| == |setValues|
    ensures forall k | 0 <= k < |setValues| :: params[k] == setValues[k].1
    ensures params == SetParams(setValues)
    ensures query == UpdateQuery(table, SetParts(setValues), condition)
  {
    var setParts: seq<string> := [];
    params := [];
    for k := 0 to |setValues|
      invariant |setParts| == |params| == k
      invariant forall n | 0 <= n < k :: setParts[n] == setValues[n].0 + " = ?" && params[n] == setValues[n].1
    {
      setParts := setParts + [setValues[k].0 + " = ?"];
      params := params + [setValues[k].1];
    }
    assert setParts == SetParts(setValues);
    var setClause := Join(", ", setParts);
    query := "UPDATE " + table + " SET " + setClause + " WHERE " + condition;
  }

  /** `n` blanks. */
  function Spaces(n: nat): (s: string)
    ensures |s| == n && '?' !in s && AllIn(s, Whitespace)
  {
    var s := seq(n, _ => ' ');
    assert forall k | 0 <= k < n :: s[k] == ' ';
    s
  }

  /** A line break followed by `n` blanks: the indentation of the statements
      written as triple-quoted strings. */
  function Indent(n: nat): (s: string)
    ensures |s| == n + 1 && '?' !in s && AllIn(s, Whitespace)
  {
    var s := "\n" + Spaces(n);
    assert forall k | 1 <= k < |s| :: s[k] == Spaces(n)[k - 1];
    s
  }

  // The three inserts of the loaders, line breaks and indentation included,
  // each given as the pieces of text between its `?` markers.

  function CustomerInsertHead(): (s: string)
    ensures '?' !in s
  {
    Indent(16) + "IF NOT EXISTS (SELECT 1 FROM " + "customers_data WHERE " + "customer_id = "
  }

  function CustomerInsertColumns(): (s: string)
    ensures '?' !in s
  {
    ")" + Indent(16) + "INSERT INTO customers_data " + "(customer_id, company_name, " + "contact_name)"
      + Indent(16) + "VALUES ("
  }

  function CustomerInsertPieces(): seq<string> {
    [CustomerInsertHead(), CustomerInsertColumns(), ", ", ", ", ")" + Indent(12)]
  }

  function EmployeeInsertHead(): (s: string)
    ensures '?' !in s
  {
    Indent(28) + "IF NOT EXISTS (SELECT 1 FROM " + "employees_data WHERE " + "employee_id = "
  }

  function EmployeeInsertColumns(): (s: string)
    ensures '?' !in s
  {
    ")" + Indent(28) + "INSERT INTO employees_data " + "(employee_id, first_name, " + "last_name, title, "
      + "birth_date, notes)" + Indent(28) + "VALUES ("
  }

  function EmployeeInsertPieces(): seq<string> {
    [EmployeeInsertHead(), EmployeeInsertColumns(), ", ", ", ", ", ", ", ", ", ", ")" + Indent(24)]
  }

  function OrderInsertHead(): (s: string)
    ensures '?' !in s
  {
    Indent(16) + "INSERT INTO orders_data " + "(customer_id, employee_id, " + "order_date, ship_city)"
      + Indent(16) + "VALUES ("
  }

  function OrderInsertPieces(): seq<string> {
    [OrderInsertHead(), ", ", ", ", ", ", ")" + Indent(16)]
  }

  function CustomerInsert(): string { Join("?", CustomerInsertPieces()) }
  function EmployeeInsert(): string { Join("?", EmployeeInsertPieces()) }
  function OrderInsert(): string { Join("?", OrderInsertPieces()) }

  /** The number of `?` parameter markers in a statement. */
  function Markers(query: string): nat {
    CountChar(query, '?')
  }

  lemma {:induction false} PiecesMarkers(pieces: seq<string>)
    requires |pieces| >= 1
    requires forall k | 0 <= k < |pieces| :: '?' !in pieces[k]
    ensures Markers(Join("?", pieces)) == |pieces| - 1
  {
    JoinMarkers(pieces, '?');
  }

  /** The customer insert has 4 markers. */
  lemma CustomerInsertMarkers()
    ensures Markers(CustomerInsert()) == 4
  {
    PiecesMarkers(CustomerInsertPieces());
  }

  /** The employee insert has 7 markers. */
  lemma EmployeeInsertMarkers()
    ensures Markers(EmployeeInsert()) == 7
  {
    PiecesMarkers(EmployeeInsertPieces());
  }

  /** The order insert has 4 markers. */
  lemma OrderInsertMarkers()
    ensures Markers(OrderInsert()) == 4
  {
    PiecesMarkers(OrderInsertPieces());
  }

  /** A statement whose text starts with a line break and blanks, then an
      `I`, takes the write branch of `execute_query`. */
  lemma {:induction false} IndentedIIsWrite(pieces: seq<string>, indent: nat)
    requires |pieces| > 1 && |pieces[0]| > indent + 1
    requires pieces[0][..indent + 1] == Indent(indent) && pieces[0][indent + 1] == 'I'
    ensures !IsRead(Join("?", pieces))
  {
    var q := Join("?", pieces);
    assert q == pieces[0] + "?" + Join("?", pieces[1..]);
    var rest := q[indent + 1..];
    assert q[..indent + 1] == Indent(indent);
    assert q == Indent(indent) + rest;
    LeadLenAfterPad(Indent(indent), rest, Whitespace);
    IsReadIff(q);
  }

  lemma CustomerInsertIsWrite()
    ensures !IsRead(CustomerInsert())
  {
    IndentedIIsWrite(CustomerInsertPieces(), 16);
  }

  lemma EmployeeInsertIsWrite()
    ensures !IsRead(EmployeeInsert())
  {
    IndentedIIsWrite(EmployeeInsertPieces(), 28);
  }

  lemma OrderInsertIsWrite()
    ensures !IsRead(OrderInsert())
  {
    IndentedIIsWrite(OrderInsertPieces(), 16);
  }
}
