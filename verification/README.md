# NorthWind seed loader — a Dafny model

This project models the `Database` class of `db_connection.py`. The class:

- connects to a SQL Server database through ODBC;
- reads seed data from CSV files;
- loads customers, employees and orders with parameterised `INSERT` statements;
- offers select, update and delete helpers on top of one `execute_query` entry point.

The model is split into six modules:

- **Text** (`text.dfy`) holds the parts of Python's `str` the code relies on:
  - `strip()`, using the characters for which `str.isspace()` holds, and `strip(chars)`;
  - `upper()`, `startswith`, `join` and `split`;
  - counting `?` markers.
- **Values** (`values.dfy`) holds the values that flow through the program:
  - `None`, strings and integers;
  - Python truthiness;
  - `dict.get`;
  - `Assign`, the dict built by assigning key/value pairs in order.
- **Csv** (`csv.dfy`) models `read_csv_data`:
  - the tab-or-comma sniff of the first 1024 characters;
  - the cleaning of every key (`strip()`) and value (`strip().strip('"').strip("'")`);
  - the two loops, as methods proved against the functions `CleanRow` and `Records`.
- **Sql** (`sql.dfy`) covers the statement side:
  - the read/write classification of `execute_query`;
  - the row dicts, built by a loop proved against `RowDict` and `Shaped`;
  - the SELECT, UPDATE and DELETE templates, and the `update_record` loop;
  - the three `INSERT` statements, character for character, with their `?` marker counts.
- **Loaders** (`loaders.dfy`) holds the per-record logic of the three seed loaders:
  - snake_case-or-PascalCase field lookup, using Python's `or`;
  - the required-field check;
  - the parameter tuple of each loader;
  - the 1-based numbering of employees.
- **Database** (`database.dfy`) holds the class itself:
  - The fields are `conn` (as `open`), `connection_string`, and the history of calls made to the driver.
  - Each method is proved against a step function on a `Session` value: `ConnectStep`, `ExecuteStep`, `LoadStep` and `CloseStep`.

The ODBC driver is a parameter `Driver = seq<Call> -> Reply`. It gives the answer to the latest call, given every call made so far, so it can behave like any stateful server. The CSV tokenizer (`csv.DictReader`) is also a parameter, and so is the outcome of opening the file. The environment variables are the fields of a `Config` value, where an unset variable is `None`.

Two facts about the code that the model keeps as they are:

- **Orders loader:** `insert_orders_from_csv` does not check an order's employee against the existing employees.
- **Sample size:** the file is opened in text mode, so `file.read(1024)` reads 1024 *characters*, not bytes.

## Model

| member | source | states |
|---|---|---|
| Text.StripSpec | db_connection.py:180-181 | `strip` returns the slice of the input left after removing the given characters from both ends, with no such character left at either end. |
| Text.Strip | db_connection.py:180-181 | Python's `strip(chars)`. The result is never longer than the input. `Text.StripSpec` proves it is the slice left after removing the given characters from both ends. |
| Text.StripUnique | db_connection.py:180 | Only one string meets the characterisation of `Text.StripSpec`, so it pins down what `strip` returns. |
| Text.StripIdempotent | db_connection.py:180 | Stripping a stripped string with the same characters changes nothing. |
| Csv.Delimiter | db_connection.py:166-173 | The delimiter is a tab exactly when a tab occurs among the first 1024 characters, and a comma otherwise. |
| Csv.DelimiterIgnoresTail | db_connection.py:167 | Nothing after the first 1024 characters can change the delimiter. |
| Csv.CleanValue | db_connection.py:180 | A cleaned value is a contiguous piece of the raw value, and it neither starts nor ends with `'`. |
| Csv.CleanCell | db_connection.py:179-183 | A cell is `None` after cleaning exactly when it was `None` before. |
| Csv.CleanKey | db_connection.py:181 | A cleaned key neither starts nor ends with whitespace. |
| Csv.CleanRowKeys | db_connection.py:176-184 | The keys of a cleaned record are exactly the stripped header names. |
| Csv.CleanRowAt | db_connection.py:178-183 | The value under a stripped key is the cleaned value of the last header that strips to it. |
| Csv.CleanRowShape | db_connection.py:176-184 | Every key is free of edge whitespace. Every value is either `None`, coming from a short line, or a piece of some raw value that does not start or end with `'`. |
| Csv.CleanRow | db_connection.py:177-183 | The dict built from one tokenized line: each stripped key holds its cleaned value, a later key overwriting an earlier one that strips to the same name. Its keys and values are stated by `Csv.CleanRowKeys`, `Csv.CleanRowAt` and `Csv.CleanRowShape`. |
| Csv.CleanFields | db_connection.py:177-183 | The inner loop fills the dict with exactly the stripped header names, each holding its cleaned value. |
| Csv.Records | db_connection.py:162-193 | The list `read_csv_data` returns: empty for a missing or unreadable file, or when a line has surplus values, and otherwise one `CleanRow` per line tokenized with the sniffed delimiter. `Csv.ReadCsvData` is proved to return it. |
| Csv.ReadCsvData | db_connection.py:162-193 | A missing or unreadable file gives no records. So does a line with surplus values, because cleaning it raises. Otherwise there is one cleaned record per tokenized line, in order, split on the sniffed delimiter. |
| Sql.IsReadIff | db_connection.py:142 | A query takes the read branch exactly when the six characters after its leading whitespace spell SELECT in any mix of letter cases. |
| Sql.IsRead | db_connection.py:142 | The read test: the query, stripped of whitespace and upper-cased, starts with `SELECT`. `Sql.IsReadIff` restates it without `strip` and `upper`. |
| Sql.SelectQueryIsRead | db_connection.py:305-310 | The statement built by `select_data_with_condition` always takes the read branch, with or without a condition. |
| Sql.SelectQueryWhere | db_connection.py:305-308 | The SELECT statement is `SELECT * FROM <table>`, followed by ` WHERE <condition>` exactly when the condition is truthy. |
| Sql.SelectQuery | db_connection.py:305-308 | The statement `select_data_with_condition` builds. `Sql.SelectQueryWhere` and `Sql.SelectQueryIsRead` state its shape and its branch. |
| Sql.DeleteQuery | db_connection.py:334 | The statement `delete_record` builds. `Sql.DeleteAndUpdateAreWrites` proves it takes the write branch. |
| Sql.DeleteAndUpdateAreWrites | db_connection.py:325-336 | The UPDATE and DELETE statements always take the write branch. |
| Sql.RowDictKeys | db_connection.py:147-149 | A row dict has one key per column name. |
| Sql.RowDictAt | db_connection.py:147-149 | A column holds the row's value at its position, unless a later column has the same name. |
| Sql.RowDict | db_connection.py:147-150 | The dict of one fetched row, each column name assigned its value in column order. Its keys and values are stated by `Sql.RowDictKeys` and `Sql.RowDictAt`. |
| Sql.Shaped | db_connection.py:143-153 | The read branch's list: one `RowDict` per fetched row, or `None` when some row is shorter than the column list. `Sql.ShapeRows` is proved to return it. |
| Sql.ShapeRows | db_connection.py:143-153 | The read branch gives one dict per fetched row. It gives nothing when some row is shorter than the column list, because indexing that row raises. |
| Sql.SetClauseMarkers | db_connection.py:320-324 | The SET clause holds one `?` per column when no column name holds one. |
| Sql.UpdateMarkers | db_connection.py:318-327 | When neither the table name, the condition nor any column name holds a `?`, the UPDATE statement holds exactly as many `?` markers as there are parameters. A condition such as `id = ?` adds a marker of its own. |
| Sql.BuildUpdate | db_connection.py:318-325 | There is one parameter per column, in the dict's order, each the column's value. The query is the UPDATE template over the `col = ?` parts joined by `, `. |
| Sql.SetParts | db_connection.py:320-322 | One `col = ?` part per item of `set_values`, in order, so as many parts as items. |
| Sql.SetParams | db_connection.py:320-323 | One parameter per item of `set_values`, in order, so as many parameters as items. |
| Sql.UpdateQuery | db_connection.py:324-325 | The statement `update_record` builds from the joined parts. `Sql.UpdateMarkers` and `Sql.DeleteAndUpdateAreWrites` state its markers and its branch. |
| Sql.CustomerInsert | db_connection.py:211-215 | The customer INSERT statement, reproduced character for character, line breaks and indentation included. |
| Sql.EmployeeInsert | db_connection.py:249-253 | The employee INSERT statement, reproduced character for character, line breaks and indentation included. |
| Sql.OrderInsert | db_connection.py:286-289 | The order INSERT statement, reproduced character for character, line breaks and indentation included. |
| Sql.CustomerInsertMarkers | db_connection.py:211-215 | The customer INSERT holds 4 markers. |
| Sql.EmployeeInsertMarkers | db_connection.py:249-253 | The employee INSERT holds 7 markers. |
| Sql.OrderInsertMarkers | db_connection.py:286-289 | The order INSERT holds 4 markers. |
| Sql.CustomerInsertIsWrite | db_connection.py:211-216 | The customer INSERT takes the write branch, so the loader gets a row count. |
| Sql.EmployeeInsertIsWrite | db_connection.py:249-254 | The employee INSERT takes the write branch. |
| Sql.OrderInsertIsWrite | db_connection.py:286-290 | The order INSERT takes the write branch. |
| Loaders.Resolve | db_connection.py:203-205 | The snake_case value is used when it is truthy, and the PascalCase value otherwise. The result is truthy exactly when either of them is. |
| Loaders.CustomerParams | db_connection.py:203-221 | A customer is sent exactly when its id, company and contact are each present under one of their two names. The tuple is (id, id, company, contact), which fills the statement's 4 markers. |
| Loaders.EmployeeParamsAsWritten | db_connection.py:238-260 | The code sends an employee exactly when the five name fields and the id are truthy, and then sends only the five name fields. |
| Loaders.EmployeeParamsMismatchAsWritten | db_connection.py:249-260 | Every tuple the code builds has a length different from the statement's marker count: 5 values for 7 markers. |
| Loaders.EmployeeMismatchExample | db_connection.py:249-260 | A complete numbered employee record is sent with a tuple whose length differs from the marker count. |
| Loaders.EmployeeParams | db_connection.py:249-260 | The corrected tuple is (id, id, the five fields). It is built under the same skip condition and fills all 7 markers. |
| Loaders.NumberEmployees | db_connection.py:234-235 | Each record gets its 1-based position under `employee_id`, and nothing else in it changes. |
| Loaders.Numbered | db_connection.py:234-235 | The numbered employee list, as long as the list read. `Loaders.NumberEmployees` is proved to return it, and `Loaders.NumberedIdNeverSkips` states what it does to the skip test. |
| Loaders.NumberedIdNeverSkips | db_connection.py:234-247 | After numbering, an employee is skipped only for a missing name field, and its id is its position. |
| Loaders.OrderParams | db_connection.py:276-295 | An order is sent exactly when all five fields are present. The tuple is (customer, employee, date, city), which fills the statement's 4 markers. |
| Loaders.OrderIdNotSent | db_connection.py:276-295 | The order id decides whether an order is sent, never what is sent. |
| Loaders.ValidTuplesAllAccepted | db_connection.py:202-221 | When no record is skipped, one tuple is sent per record, in order. |
| Loaders.ValidTuplesNoneAccepted | db_connection.py:207-209 | When every record is skipped, nothing is sent. |
| Loaders.ValidTuplesFromRecords | db_connection.py:202-221 | Every tuple sent is the tuple of some record that was not skipped. |
| Loaders.ValidTuples | db_connection.py:202-221 | The tuples a loader sends, in record order, skipped records contributing none, so never more tuples than records. |
| Database.ConnectionStringFields | db_connection.py:25-34 | When no setting and no password argument holds `;`, the connection string splits on `;` into its six attributes in order. Its password is the argument, or the configured password when the argument is `None`. |
| Database.ConnectionString | db_connection.py:25-34 | The f-string `connect` builds. `Database.ConnectionStringFields` states its six attributes. |
| Database.ConnectStep | db_connection.py:21-47 | `connect` on a `Session`: the string is remembered, one `Open` call is made, and the connection is set only when the driver accepts. `Database.Database.Connect` is proved to follow it. |
| Database.Answer | db_connection.py:137-160 | What `execute_query` returns for a driver answer: `None` for a failure, the row count for a write, and the row dicts for a read whose cursor describes its columns. `Database.ExecuteResult` states it. |
| Database.ExecuteStep | db_connection.py:128-160 | `execute_query` on a `Session`: the lazy connect, then one `Execute` call. `Database.ExecuteOnOpenSession` and `Database.ExecuteOnClosedSession` state its effect and tie its result to `Database.Answer` on both paths, and `Database.AnswerResult` states what that result is. |
| Database.ExecuteOnOpenSession | db_connection.py:131-157 | With a connection open, a query is one more driver call and nothing else, and the result is what `Database.Answer` makes of the driver's reply to it. |
| Database.ExecuteOnClosedSession | db_connection.py:131-157 | Without a connection, the first call opens one with the configured password. When the driver refuses it, the query is never sent and the result is `None`. When it accepts, the query is sent and the result is what `Database.Answer` makes of the driver's reply to it. |
| Database.AnswerResult | db_connection.py:137-160 | For any driver reply: a failure gives `None` and a write gives the row count. A read never gives a count, and it gives one dict per fetched row mapping each column to that row's value. |
| Database.ExecuteResult | db_connection.py:134-160 | On a connection that is already open, the result of a query is as `Database.AnswerResult` describes it for the driver's reply. |
| Database.CloseIdempotent | db_connection.py:357-362 | After closing there is no connection. Closing again, or closing when nothing is open, changes nothing. |
| Database.CloseStep | db_connection.py:357-362 | `close_connection` on a `Session`: one `Close` call when a connection is open, nothing otherwise. `Database.CloseIdempotent` states it. |
| Database.LoadCountBound | db_connection.py:216-224 | A loader never counts more inserts than it sent tuples. |
| Database.LoadStep | db_connection.py:216-224 | The insert loop on a `Session`: each tuple executed in turn, counting positive row counts. `Database.LoadCountBound` and `Database.LoadOnOpenSession` state its count and its calls. |
| Database.LoadOnOpenSession | db_connection.py:216-224 | On an open connection, a loader sends each tuple once, in order. It counts exactly the driver answers that report a positive row count. |
| Database.LoadMismatchCountsNothing | db_connection.py:254-263 | If a driver refuses tuples that do not match their statement, a loader whose tuples never match counts nothing. |
| Database.EmployeeLoadAsWrittenCountsNothing | db_connection.py:228-266 | With the tuple as written, such a driver lets the employee loader insert nothing. |
| Database.LoadTuplesFit | db_connection.py:216-221 | With the corrected employee tuple, every tuple of each of the three loaders matches its statement. |
| Database.Database.constructor | db_connection.py:9-19 | A new object has no connection, no connection string and no calls made. |
| Database.Database.Connect | db_connection.py:21-47 | `connect` remembers the connection string even when opening fails, and keeps the old connection when the driver refuses. It reports whether the connection opened. |
| Database.Database.ExecuteQuery | db_connection.py:128-160 | The new state and the result are those of `ExecuteStep`: lazy connect, one execution, then the result as `ExecuteResult` describes. |
| Database.Database.InsertRecords | db_connection.py:202-224 | The shared insert loop skips rejected records, sends the others in order, and counts positive row counts. |
| Database.Database.InsertCustomersFromCsv | db_connection.py:196-226 | Read the file, then run the insert loop with the customer tuple. |
| Database.Database.InsertEmployeesFromCsv | db_connection.py:228-266 | Read the file, number the records, then run the insert loop with the corrected employee tuple. |
| Database.Database.InsertOrdersFromCsv | db_connection.py:268-301 | Read the file, then run the insert loop with the order tuple. |
| Database.Database.SelectDataWithCondition | db_connection.py:303-313 | Runs the SELECT template without parameters, and never returns a row count. |
| Database.Database.UpdateRecord | db_connection.py:315-330 | Runs the UPDATE template with the column values as parameters, and never returns rows. |
| Database.Database.DeleteRecord | db_connection.py:332-339 | Runs the DELETE template without parameters, and never returns rows. |
| Database.Database.CloseConnection | db_connection.py:357-362 | Closes an open connection; otherwise does nothing. |

## Left out

- `create_database` and `create_table` are not modelled. They only issue DDL statements. This includes the argument-less `self.connect()` at line 82, which would raise a `TypeError`.
- `show_table_info` and all `print` output are not modelled.
- What the SQL statements do on the server is not modelled. The driver's answers are a free parameter. One consequence: whether SQL Server accepts an explicit `employee_id` for an `IDENTITY` column is outside the model.
- `csv.DictReader` tokenisation is not modelled. Neither are opening, reading and decoding the file. They are the parameters `Tokenizer` and `Source`.
- Environment variables are not modelled. They are the `Config` value given to the constructor.
- Database.Database.Connect: the exception classes are collapsed into one refusal by the driver. A driver `InterfaceError` or `OperationalError` makes `connect` return `False`, but any other exception makes it return `None`. The model returns `false` in every case. Both values are falsy to `execute_query`.
- Setting `autocommit` is not modelled. Neither is a failure of `cursor.close()`.
- Database.Database.CloseConnection: `conn.close()` raising is not modelled. The exception would escape `close_connection`.
- Sql.IsRead: `upper()` (`Text.Upper`) is modelled for ASCII letters only. In Python, a query starting with `ſelect` (long s, U+017F) also reads as SELECT; in the model it does not.
- Sql.IsReadIff: states the read test with the same ASCII-only `upper()`, so it is weaker in the same way as `Sql.IsRead`.
- Database.Database.InsertRecords: given a statement that reads, Python's `result > 0` on a list raises `TypeError` out of the loader. The model counts nothing instead. The three loaders only pass statements that write, as `Sql.CustomerInsertIsWrite`, `Sql.EmployeeInsertIsWrite` and `Sql.OrderInsertIsWrite` prove.
- Values.Value: the values a driver returns in result rows are limited to `None`, strings and integers. There are no dates, decimals or floats.
- Sql.BuildUpdate: `set_values` is modelled as its list of items in iteration order. That a dict cannot hold a key twice is not enforced.
- A `condition` argument is an optional string. Truthiness of other argument types is not modelled.

## Findings

| source | as written | input that shows it | evidently intended | confidence | as-written member | corrected member |
|---|---|---|---|---|---|---|
| db_connection.py:249-260 | The employee INSERT has 7 `?` markers (the id for the existence check, then the six columns). The tuple passed holds only the 5 name fields, so the driver refuses every employee row and the loader reports 0 inserted. | A complete record such as `first_name=Nancy, last_name=Davolio, title=Sales Representative, birth_date=1948-12-08, notes=BA`, numbered `employee_id=1`. | Pass `(employee_id, employee_id, first_name, last_name, title, birth_date, notes)`, as the customer loader does. | not executed | Database.EmployeeLoadAsWrittenCountsNothing | Loaders.EmployeeParams |
